# BmpHeaderViewer DIB core in Dafny

BmpHeaderViewer is a Windows viewer for device-independent bitmaps (DIBs). It
reads a bitmap file or a DIB from the clipboard, prints every header field,
and checks and repairs the block before it displays it. This project models
the byte-level core of that program and proves properties of the model.

- **DIB geometry** (`DibGeometry`). This covers the header-size tests, the
  colour-table entry count, the sizes of the colour masks and the palette, the
  image size, the bits offset, the compression and profile predicates, and the
  pixel-mask colour extraction. The image size uses C `int` arithmetic, with
  32-bit wrap-around and truncating division, which the model writes out.
- **Re-layouts** (`DibLayouts`, `DibBuild`). Three conversions are modelled:
  - `CopyDib`.
  - `CreateDibFromClipboardDib`: a clipboard V5 DIB with its profile before
    the bits becomes a file-order DIB with the profile after them.
  - `CreateClipboardDib`: core and OS/2 2.x headers are upgraded to a 40-byte
    header, V2–V4 headers to a V5 header, and an embedded profile is moved in
    front of the bits.

  Each conversion is a function on byte sequences. An `array` method builds
  the block and is proved equal to that function. Two round trips are proved:
  file order to clipboard order and back, and the reverse.
- **SaveBitmap** (`DibSave`). This builds the `BITMAPFILEHEADER` and the file
  bytes.
- **ParseBitmap / ParseDIBitmap** (`ParseDib`). The model covers:
  - the file wrapper, including the OS/2 bitmap array;
  - the header-size checkpoints;
  - sanitising: a negative width, a wrong SizeImage, and the displayable and
    pass-through verdicts;
  - the checks for missing masks and a missing palette;
  - repair of a gap or an overlap between the declared offset and the packed
    bits offset, by closing the gap, shrinking the colour table, or growing it
    with a grey ramp;
  - the cropped-bits and profile-bounds checks;
  - the embedded-profile checkpoints.

  `Examine` is the specification. `ParseDIBitmap` is the in-place method over
  an `array` that is proved to agree with it.
- **ICC profile report** (`IccProfile`). This covers what is printed of an
  embedded profile:
  - the signature text forms;
  - the version, flags, attributes and rendering intent;
  - the tag table walk;
  - the element of each tag type;
  - the names of the system-palette colours.
- **Text helpers** (`MiscText`): `AppendFlagName`, `AllocReplaceString` and
  `ShortenPath` over NUL-terminated character arrays.
- **Viewer** (`Viewer`). The model covers:
  - the file name taken from the command line (`AllocGetCmdLine`);
  - the choice of reader from the first two bytes;
  - the 16-bytes-per-row hex dump;
  - selection of the word around the caret (`SelectText`).

`Bytes` holds the shared byte and DWORD helpers: little- and big-endian reads
and writes, hex digits, C strings, and array copy and move loops.

Every DIB field is little-endian, and every ICC profile field is big-endian,
as in section 7 of ICC.1 (ISO 15076-1).

The source guards its re-layout copies with structured exception handlers;
the model states explicit bounds instead, so a re-layout that would read past
the block fails. The tag walk of the profile report and the reads of each tag
element are not guarded and not bounded by the profile size in the source
(see "## Findings"); the model stops at the end of the profile, so a tag or
element outside it is not read.

## Model

| member | source | states |
|---|---|---|
| DibGeometry.HeaderTestsAreByteTests | BmpHeaderViewer/DibApi.h:36-39 | each IS_*_DIB test holds exactly when the first four bytes are the header size 12, 40, 108 or 124 in little-endian order |
| DibGeometry.BftBitmapIsBM | BmpHeaderViewer/DibApi.h:19 | BFT_BITMAP read as a little-endian WORD is exactly the two characters 'B', 'M' |
| DibGeometry.EntriesForBitCount | BmpHeaderViewer/DibApi.cpp:834-837 | the entry count implied by a bit count is at most 4096 and is non-zero exactly for bit counts 1 to 12 |
| DibGeometry.DibNumColorsBounds | BmpHeaderViewer/DibApi.cpp:817-840 | the colour count is at most 4096; a core header uses its bit count; a ClrUsed of 1..4096 takes precedence; the count is zero exactly when neither ClrUsed nor the bit count yields entries |
| DibGeometry.DibNumColors | BmpHeaderViewer/DibApi.cpp:817-840 | at most 4096 colours, and none exactly when a core header has a bit count outside 1..12, or another header has neither a ClrUsed of 1..4096 nor a bit count of 1..12 |
| DibGeometry.ColorMasksSize | BmpHeaderViewer/DibApi.cpp:844-855 | the mask block is 0, 12 or 16 bytes, and non-zero only in a 40-byte header |
| DibGeometry.PaletteSize | BmpHeaderViewer/DibApi.cpp:859-865 | the palette is a whole number of 3- or 4-byte entries, one per colour, and at most 16 KiB |
| DibGeometry.WidthBytesIsAlignedCeiling | BmpHeaderViewer/DibApi.h:32-34 | WIDTHBYTES is the smallest multiple of 4 bytes that holds the given bits |
| DibGeometry.WidthBytesCAgrees | BmpHeaderViewer/DibApi.h:34 | the macro on C ints equals the unbounded aligned ceiling whenever the sum does not overflow |
| DibGeometry.CoreImageSizeExact | BmpHeaderViewer/DibApi.cpp:874-878 | a core DIB's image size is the exact stride times height when the C product does not wrap |
| DibGeometry.InfoImageSizeExact | BmpHeaderViewer/DibApi.cpp:880-885 | SizeImage is used when non-zero and not recalculated (or compressed); otherwise the size is the exact stride times the absolute height when nothing wraps |
| DibGeometry.DibImageSize | BmpHeaderViewer/DibApi.cpp:869-886 | a non-zero SizeImage of a non-core header is returned as is when the DIB is compressed or no recalculation is asked for |
| DibGeometry.InfoLineBitsExact | BmpHeaderViewer/DibApi.cpp:885 | the bits of one row are the exact product of absolute width, planes and bit count when it fits an int |
| DibGeometry.OffsetEquations | BmpHeaderViewer/DibApi.cpp:890-923 | the palette follows header and masks, the packed bits follow the palette, and the bits move past a profile exactly when the profile sits at the packed offset |
| DibGeometry.DibBitsOffset | BmpHeaderViewer/DibApi.cpp:890-903 | below V5 the bits sit at the packed offset; with the profile before the bits they sit past the profile when the DWORD sum does not wrap |
| DibGeometry.GeometryFieldsFrame | BmpHeaderViewer/DibApi.cpp:817-886 | two blocks with the same header bytes have the same geometry fields |
| DibGeometry.GeometryFrame | BmpHeaderViewer/DibApi.cpp:817-903 | colour count, mask and palette sizes, packed offset, compression and image size depend only on the header bytes |
| DibGeometry.InfoFieldsFrame | BmpHeaderViewer/DibApi.cpp:817-886 | two info-family headers with equal bytes 4..40 agree on every derived size |
| DibGeometry.CustomFormatProperties | BmpHeaderViewer/DibApi.cpp:954-979 | a custom format is exactly a 40-byte header whose compression is four printable characters, and a custom format counts as compressed |
| DibGeometry.IsFourCC | BmpHeaderViewer/DibApi.cpp:968-981 | a four-character code lies between 0x20000000 and 0x7F000000, as four printable bytes must |
| DibGeometry.DibIsCustomFormat | BmpHeaderViewer/DibApi.cpp:968-981 | a custom format counts as compressed |
| DibGeometry.DibIsCompressed | BmpHeaderViewer/DibApi.cpp:954-966 | a compressed DIB has a non-core header and no separate colour-mask block |
| DibGeometry.ProfilePredicates | BmpHeaderViewer/DibApi.cpp:927-989 | a colour profile implies a V5 non-CMYK DIB; with a profile, colour-space data means an embedded profile; colour-space data needs a V4 or V5 header and excludes CMYK |
| DibGeometry.DibHasColorProfile | BmpHeaderViewer/DibApi.cpp:927-937 | a DIB with a colour profile has a V5 header and is not CMYK |
| DibGeometry.DibIsCMYK | BmpHeaderViewer/DibApi.cpp:983-994 | a CMYK DIB has a V4 or V5 header and no colour-space data |
| DibGeometry.Mul8BitExact | BmpHeaderViewer/DibApi.h:41-44 | the shifts of Mul8Bit are the stated integer divisions of a*b+128 |
| DibGeometry.Mul8BitRange | BmpHeaderViewer/DibApi.h:41-44 | Mul8Bit stays in 0..255, is symmetric, and is 0 when either operand is 0 |
| DibGeometry.Mul8BitUnit | BmpHeaderViewer/DibApi.h:41-44 | multiplying by 255 returns the other operand, as an approximation of a*b/255 must |
| DibGeometry.ColorValue | BmpHeaderViewer/DibApi.cpp:1029-1043 | the extracted colour value is a byte |
| DibGeometry.GetColorValue | BmpHeaderViewer/DibApi.cpp:1029-1043 | the shifting loop computes ColorValue of pixel and mask |
| DibGeometry.NormalizeByte | BmpHeaderViewer/DibApi.cpp:1036-1040 | shifting both colour and mask left by 8 beforehand does not change the normalised result |
| DibGeometry.ColorValueOfBlueMask | BmpHeaderViewer/DibApi.cpp:1029-1043 | mask 0xFF yields the low byte of the pixel |
| DibGeometry.ColorValueOfGreenMask | BmpHeaderViewer/DibApi.cpp:1029-1043 | mask 0xFF00 yields the second byte of the pixel |
| DibGeometry.ColorValueOfByteMask | BmpHeaderViewer/DibApi.cpp:1029-1043 | each of the four byte-aligned masks extracts exactly its byte |
| DibLayouts.Relayout | BmpHeaderViewer/DibApi.cpp:658-723 | a re-laid-out block is the header followed by the two moved parts, nothing more |
| DibLayouts.ClipboardFormat | BmpHeaderViewer/DibApi.cpp:727-733 | CF_DIBV5 exactly for headers larger than 40 bytes other than the 64-byte OS/2 header, else CF_DIB |
| DibLayouts.WidenTriples | BmpHeaderViewer/DibApi.cpp:574-585 | widening RGBTRIPLEs yields four bytes per triple |
| DibLayouts.WidenThenNarrow | BmpHeaderViewer/DibApi.cpp:574-585 | dropping the reserved byte of each widened quad gives back the triples, and every reserved byte is 0 |
| DibLayouts.NarrowQuads | BmpHeaderViewer/DibApi.cpp:574-585 | dropping the reserved byte of each quad leaves three bytes per quad |
| DibLayouts.InfoHeaderBytes | BmpHeaderViewer/DibApi.cpp:564-570 | the synthesised info header is 40 bytes |
| DibLayouts.InfoHeaderFields | BmpHeaderViewer/DibApi.cpp:564-570 | the synthesised header reads back size 40, the given width, height, planes, bit count, image size and colour count, BI_RGB, and no important colours |
| DibLayouts.InfoHeaderGeometry | BmpHeaderViewer/DibApi.cpp:540-592 | the upgraded header is a 40-byte DIB whose colours, palette, packed offset and image size are those its fields imply |
| DibLayouts.CoreUpgradeHeader | BmpHeaderViewer/DibApi.cpp:564-570 | the header replacing a core header is 40 bytes |
| DibLayouts.CoreTable | BmpHeaderViewer/DibApi.cpp:540-592 | a core DIB's bits follow its 12-byte header and one triple per colour, and its table widens to one quad per colour |
| DibLayouts.CoreToInfo | BmpHeaderViewer/DibApi.cpp:540-592 | the core conversion fails exactly when the bits run past the block, and otherwise has room for header, quads and bits |
| DibLayouts.CoreToInfoHeader | BmpHeaderViewer/DibApi.cpp:540-592 | the converted DIB keeps width, height, planes, bit count, colours and image size, with the bits right after its palette and nothing after them |
| DibLayouts.CoreToInfoPayload | BmpHeaderViewer/DibApi.cpp:574-587 | the converted palette is the widened core palette and the converted bits are the core bits |
| DibLayouts.Os2ToInfoShape | BmpHeaderViewer/DibApi.cpp:593-623 | an OS/2 2.x DIB loses the 24 extra header bytes, keeping fields 4..40, colour table and bits, and every derived size |
| DibLayouts.Os2ToInfo | BmpHeaderViewer/DibApi.cpp:593-623 | the 40-byte copy is 24 bytes shorter and keeps everything after the OS/2 header unchanged |
| DibLayouts.ToV5Bytes | BmpHeaderViewer/DibApi.cpp:624-657 | the V5 copy keeps the common fields and everything after the old header, and grows by the header difference |
| DibLayouts.ToV5Fields | BmpHeaderViewer/DibApi.cpp:624-657 | the V5 header has size 124, intent LCS_GM_IMAGES, sRGB colour space below V4 (kept from V4), and no profile |
| DibLayouts.ToV5Geometry | BmpHeaderViewer/DibApi.cpp:624-657 | the V5 copy is a profile-less V5 DIB with the same colours, palette, image size and compression, and bits shifted by the header growth |
| DibLayouts.ToV5Counts | BmpHeaderViewer/DibApi.cpp:624-657 | the V5 copy keeps colours, palette, image size and compression |
| DibLayouts.ToV5Offsets | BmpHeaderViewer/DibApi.cpp:624-657 | the V5 copy's bits offset is the old one plus the header growth |
| DibLayouts.ToV5 | BmpHeaderViewer/DibApi.cpp:624-657 | the V5 copy grows by the header difference, has header size 124 and intent LCS_GM_IMAGES |
| DibLayouts.InfoSizeIsPacked | BmpHeaderViewer/DibApi.cpp:658-700 | the header-plus-tables size of a V5 DIB is its packed bits offset, at most 124 + 16 KiB |
| DibLayouts.ProfileDataRewrite | BmpHeaderViewer/DibApi.cpp:658-700 | rewriting only ProfileData keeps the header, palette, packed offset, image size, colour space and profile size |
| DibLayouts.RelayoutFlat | BmpHeaderViewer/DibApi.cpp:701-723 | the re-laid-out block is the header with the new ProfileData, then the two parts in order |
| DibLayouts.RelayoutParts | BmpHeaderViewer/DibApi.cpp:701-723 | the header is kept except ProfileData, which reads the new value, and each part lands at its place |
| DibLayouts.RelayoutSwapBack | BmpHeaderViewer/DibApi.cpp:457-520 | swapping the two parts back, with the original ProfileData, restores the block |
| DibLayouts.RelayoutInverse | BmpHeaderViewer/DibApi.cpp:457-520 | the two swaps are inverse re-layouts |
| DibLayouts.RelayoutHeader | BmpHeaderViewer/DibApi.cpp:701-723 | the re-laid-out header still describes a profile DIB with the same sizes and the new ProfileData |
| DibLayouts.ProfileFirstIs | BmpHeaderViewer/DibApi.cpp:658-723 | the clipboard layout puts the profile right after the header and the bits after the profile |
| DibLayouts.ProfileLastIs | BmpHeaderViewer/DibApi.cpp:457-520 | the file layout puts the bits right after the header and the profile after the bits |
| DibLayouts.ProfileFirstHeader | BmpHeaderViewer/DibApi.cpp:658-723 | the clipboard DIB's header places the profile at the packed offset and the bits after it |
| DibLayouts.ProfileFirstLayout | BmpHeaderViewer/DibApi.cpp:658-723 | the clipboard DIB holds the original header, then the original profile, then the original bits |
| DibLayouts.ProfileLastHeader | BmpHeaderViewer/DibApi.cpp:457-520 | the file DIB's header places the bits at the packed offset and the profile after them |
| DibLayouts.ProfileLastLayout | BmpHeaderViewer/DibApi.cpp:457-520 | the file DIB holds the original header, then the original bits, then the original profile |
| DibLayouts.ProfileFirst | BmpHeaderViewer/DibApi.cpp:658-723 | the clipboard-order block is exactly header, profile and bits long, and no longer than its source |
| DibLayouts.ProfileLast | BmpHeaderViewer/DibApi.cpp:457-520 | the file-order block is exactly header, bits and profile long, and no longer than its source |
| DibLayouts.DibFromClipboard | BmpHeaderViewer/DibApi.cpp:457-520 | fails exactly for a profile DIB whose parts do not fit; a DIB without a profile is returned as is; otherwise the result is header, bits and profile long |
| DibLayouts.FileLayoutFits | BmpHeaderViewer/DibApi.cpp:658-700 | a file-order DIB passes the size checks of the clipboard conversion |
| DibLayouts.ClipLayoutFits | BmpHeaderViewer/DibApi.cpp:478-487 | a clipboard-order DIB passes the size checks of the file conversion |
| DibLayouts.ClipboardDibOfV5 | BmpHeaderViewer/DibApi.cpp:624-736 | a V5 DIB with a profile goes to the clipboard in profile-first order, or fails if its parts do not fit; without a profile it goes as is; both as CF_DIBV5 |
| DibLayouts.ClipboardDib | BmpHeaderViewer/DibApi.cpp:524-736 | fails exactly for a core DIB whose bits run past the block or a profile DIB whose parts do not fit; the format is CF_DIBV5 exactly for headers above 40 bytes other than the OS/2 one |
| DibLayouts.FileClipboardBytes | BmpHeaderViewer/DibApi.cpp:524-736 | the file DIB converted to clipboard order and back is unchanged |
| DibLayouts.ClipboardFileBytes | BmpHeaderViewer/DibApi.cpp:457-520 | the clipboard DIB converted to file order and back is unchanged |
| DibLayouts.ClipboardFileShape | BmpHeaderViewer/DibApi.cpp:457-520 | the file-order result has the bits right after the header and the profile right after the bits |
| DibLayouts.FileClipboardRoundTrip | BmpHeaderViewer/DibApi.cpp:524-736 | CreateClipboardDib then CreateDibFromClipboardDib returns the original file-order DIB |
| DibLayouts.ClipboardFileRoundTrip | BmpHeaderViewer/DibApi.cpp:457-520 | CreateDibFromClipboardDib then CreateClipboardDib returns the original clipboard DIB as CF_DIBV5 |
| DibBuild.CopyDib | BmpHeaderViewer/DibApi.cpp:279-314 | fails exactly on an empty block, otherwise returns a block with the same bytes |
| DibBuild.RelayoutInto | BmpHeaderViewer/DibApi.cpp:701-723 | the built array holds exactly Relayout of the source |
| DibBuild.CreateDibFromClipboardDib | BmpHeaderViewer/DibApi.cpp:457-520 | fails exactly when the clipboard conversion does, otherwise returns its bytes |
| DibBuild.WriteInfoHeader | BmpHeaderViewer/DibApi.cpp:564-570 | a zeroed block receives exactly the synthesised 40-byte header, the rest staying zero |
| DibBuild.WidenPalette | BmpHeaderViewer/DibApi.cpp:574-585 | the palette loop writes the widened triples after the header and changes nothing else |
| DibBuild.CoreToInfoInto | BmpHeaderViewer/DibApi.cpp:540-592 | the built array is the converted core DIB |
| DibBuild.BuildWidened | BmpHeaderViewer/DibApi.cpp:540-592 | the built array is header, widened palette and bits, in that order |
| DibBuild.Os2ToInfoInto | BmpHeaderViewer/DibApi.cpp:593-623 | the built array is the converted OS/2 2.x DIB |
| DibBuild.ToV5Into | BmpHeaderViewer/DibApi.cpp:624-657 | the built array is the V5 copy |
| DibBuild.CreateClipboardDib | BmpHeaderViewer/DibApi.cpp:524-736 | fails exactly when the conversion does, otherwise returns its bytes and its clipboard format |
| DibSave.FileHeader | BmpHeaderViewer/DibApi.cpp:53-56 | the file header is 14 bytes |
| DibSave.FileHeaderFields | BmpHeaderViewer/DibApi.cpp:53-56 | the file header is 'BM', the file size, two zero reserved WORDs and the bits offset past the 14 header bytes |
| DibSave.SavedDibSizeCovers | BmpHeaderViewer/DibApi.cpp:38-51 | the saved size ends at the bits, or with a profile at whichever of bits and profile data comes last plus the profile |
| DibSave.SavedDibSize | BmpHeaderViewer/DibApi.cpp:38-51 | without a profile the bits end; with a profile after the bits its end; with the profile ending at the bits offset at least the bits end |
| DibSave.SavedFile | BmpHeaderViewer/DibApi.cpp:29-88 | a file exactly when the saved size fits the block; it is the 14-byte header followed by that many bytes of the DIB |
| DibSave.SaveFileLayoutWhole | BmpHeaderViewer/DibApi.cpp:29-88 | a file-order DIB is saved whole, behind its file header |
| DibSave.SaveClipboardLayoutWhole | BmpHeaderViewer/DibApi.cpp:29-88 | a clipboard-order DIB is saved whole, behind its file header |
| DibSave.ComputeSavedDibSize | BmpHeaderViewer/DibApi.cpp:38-51 | computes the saved DIB size |
| DibSave.FillFileHeader | BmpHeaderViewer/DibApi.cpp:53-56 | fills the zeroed header with type, size and offset and nothing else |
| DibSave.SaveBitmap | BmpHeaderViewer/DibApi.cpp:29-88 | writes the file header and the saved DIB, or fails when the saved size exceeds the block |
| IccProfile.SignatureText | BmpHeaderViewer/ParseBitmap.cpp:1074-1111 | the shown text has 1, 4, 6 or 8 characters: 1 exactly for a zero signature, 4 exactly for four printable bytes |
| IccProfile.SignatureTextRoundTrip | BmpHeaderViewer/ParseBitmap.cpp:1082-1107 | every shown signature reads back to its four bytes |
| IccProfile.MixedSignatureRoundTrip | BmpHeaderViewer/ParseBitmap.cpp:1082-1107 | two characters then two hex bytes read back to the signature |
| IccProfile.HexSignatureRoundTrip | BmpHeaderViewer/ParseBitmap.cpp:1082-1107 | eight hex digits read back to the signature |
| IccProfile.SignatureTextInjective | BmpHeaderViewer/ParseBitmap.cpp:1074-1111 | two signatures shown alike are equal |
| IccProfile.TagEntryAt | BmpHeaderViewer/ParseBitmap.cpp:1027-1056 | a tag entry has a four-byte signature |
| IccProfile.TagsRead | BmpHeaderViewer/ParseBitmap.cpp:1027-1056 | the walk reads at most the declared count, only entries inside the profile, and all of them when they fit |
| IccProfile.TagTable | BmpHeaderViewer/ParseBitmap.cpp:1027-1056 | the table has one entry per tag read |
| IccProfile.WalkTagTable | BmpHeaderViewer/ParseBitmap.cpp:1027-1056 | the cursor loop yields the tag table |
| IccProfile.EncodeTagTable | BmpHeaderViewer/ParseBitmap.cpp:1027-1056 | an encoded table is the count plus 12 bytes per entry |
| IccProfile.TagTableRoundTrip | BmpHeaderViewer/ParseBitmap.cpp:1027-1056 | walking an encoded table behind a 128-byte header returns the entries encoded |
| IccProfile.TagWalkEndAsWritten | BmpHeaderViewer/ParseBitmap.cpp:1027-1056 | the source walk ends past the 132 bytes before the entries, strictly past them for any declared tag, whatever the profile size |
| IccProfile.HeaderOnlyProfile | BmpHeaderViewer/ParseBitmap.cpp:1027-1056 | the example profile is its 128-byte header alone |
| IccProfile.TagWalkOverrun | BmpHeaderViewer/ParseBitmap.cpp:1027-1056 | a 128-byte profile that passes the embedded-profile checks and is shown makes the source walk read past it for every count, while the bounded walk reads no tag |
| IccProfile.TagWalkBounded | BmpHeaderViewer/ParseBitmap.cpp:1027-1056 | the bounded walk reads every declared tag when the source walk stays inside the profile, and otherwise fewer, all inside the profile |
| IccProfile.MaxTextLen | BmpHeaderViewer/ParseBitmap.cpp:1117-1124 | the string limit is OUTPUT_LEN less 39 less the label, never more than OUTPUT_LEN - 39 |
| IccProfile.BoundedCString | BmpHeaderViewer/ParseBitmap.cpp:1161-1182 | a string read is within its bound and holds no NUL |
| IccProfile.TagDataView | BmpHeaderViewer/ParseBitmap.cpp:1115-1294 | elements under 4 bytes show nothing; each view needs its type's size; strings fit the limit and are on one line |
| IccProfile.Utf16BE | BmpHeaderViewer/ParseBitmap.cpp:1212-1238 | each code unit is the big-endian WORD at its place |
| IccProfile.DropNuls | BmpHeaderViewer/ParseBitmap.cpp:1212-1238 | dropping NULs never lengthens and leaves no NUL |
| IccProfile.DropNulsKeeps | BmpHeaderViewer/ParseBitmap.cpp:1212-1238 | exactly the non-NUL units survive, and a NUL-free string is unchanged |
| IccProfile.SwapUnits | BmpHeaderViewer/ParseBitmap.cpp:1212-1238 | the byte-swap loop leaves the NUL-free units, zero-terminated |
| IccProfile.Utf16Bytes | BmpHeaderViewer/ParseBitmap.cpp:1186-1200 | the corrected buffer holds one WCHAR per unit plus one for the NUL |
| IccProfile.Utf16AllocAsWritten | BmpHeaderViewer/ParseBitmap.cpp:1193 | the source allocation is smaller than the corrected one exactly when there is a unit |
| IccProfile.Utf8AllocOverrun | BmpHeaderViewer/ParseBitmap.cpp:1186-1200 | the source allocation has no room for the NUL, nor for the units from three on, while the corrected size holds every unit and the NUL |
| IccProfile.TextTag | BmpHeaderViewer/ParseBitmap.cpp:1136-1159 | a 'text' element is its string plus 9 bytes |
| IccProfile.CStringOfTextTag | BmpHeaderViewer/ParseBitmap.cpp:1136-1159 | a 'text' element reads back its type and its NUL-terminated string |
| IccProfile.TextTagShows | BmpHeaderViewer/ParseBitmap.cpp:1136-1159 | a 'text' string is shown exactly when it is one line within the limit |
| IccProfile.DescTag | BmpHeaderViewer/ParseBitmap.cpp:1161-1182 | a 'desc' element is its string plus 13 bytes |
| IccProfile.DescTagParts | BmpHeaderViewer/ParseBitmap.cpp:1161-1182 | a 'desc' element holds its type, the count with the NUL, then the string and NUL |
| IccProfile.DescTagRead | BmpHeaderViewer/ParseBitmap.cpp:1161-1182 | a 'desc' element reads back its type, count and string |
| IccProfile.DescTagShows | BmpHeaderViewer/ParseBitmap.cpp:1161-1182 | a 'desc' string is shown exactly when it is one line within the limit |
| IccProfile.XyzTag | BmpHeaderViewer/ParseBitmap.cpp:1258-1269 | an 'XYZ ' element is 20 bytes |
| IccProfile.XyzTagParts | BmpHeaderViewer/ParseBitmap.cpp:1258-1269 | an 'XYZ ' element holds its type and the three values big-endian |
| IccProfile.XyzTagShows | BmpHeaderViewer/ParseBitmap.cpp:1258-1269 | an 'XYZ ' element shows its three signed values |
| IccProfile.CurveTag | BmpHeaderViewer/ParseBitmap.cpp:1240-1256 | a 'curv' element is 12 bytes, or 14 with one gamma |
| IccProfile.CurveTagShows | BmpHeaderViewer/ParseBitmap.cpp:1240-1256 | an empty curve shows as identity, a one-entry curve as its gamma |
| IccProfile.SignatureTag | BmpHeaderViewer/ParseBitmap.cpp:1131-1134 | a 'sig ' element is 12 bytes |
| IccProfile.SignatureTagShows | BmpHeaderViewer/ParseBitmap.cpp:1131-1134 | a 'sig ' element shows its signature's text, which reads back to the signature |
| IccProfile.EncodeUnits | BmpHeaderViewer/ParseBitmap.cpp:1212-1238 | big-endian code units take two bytes each |
| IccProfile.EncodedUnitsRead | BmpHeaderViewer/ParseBitmap.cpp:1212-1238 | reading encoded units returns them |
| IccProfile.MlucTag | BmpHeaderViewer/ParseBitmap.cpp:1212-1238 | a one-record 'mluc' element is 28 bytes plus its units |
| IccProfile.MlucTagFields | BmpHeaderViewer/ParseBitmap.cpp:1212-1238 | the element reads back its type, one record, the string length and offset, and its units |
| IccProfile.MlucTagShows | BmpHeaderViewer/ParseBitmap.cpp:1212-1238 | the first record is shown exactly when it is one line within the limit |
| IccProfile.VersionOf | BmpHeaderViewer/ParseBitmap.cpp:821-827 | ColorSync 1.0 exactly for 0x100; otherwise major, minor and bug-fix digits, with a subclass version from 5.0 on when set |
| IccProfile.VersionRoundTrip | BmpHeaderViewer/ParseBitmap.cpp:821-827 | the shown version parts with subclass recompose the version field |
| IccProfile.UnknownFlags | BmpHeaderViewer/ParseBitmap.cpp:844-890 | clearing the four named flag bits leaves the value less its low nibble |
| IccProfile.UnknownAttributes | BmpHeaderViewer/ParseBitmap.cpp:896-967 | clearing the eight named attribute bits leaves the value less its low byte |
| IccProfile.FlagNamesListed | BmpHeaderViewer/ParseBitmap.cpp:844-890 | names are listed exactly when a known flag is set; any unknown remainder is listed last, in hex; at most five items |
| IccProfile.AttributeBitsNamed | BmpHeaderViewer/ParseBitmap.cpp:896-967 | attribute names appear exactly when a low-byte bit is set, at most eight |
| IccProfile.AttributeNamesListed | BmpHeaderViewer/ParseBitmap.cpp:896-967 | as for flags: names exactly for known bits, the unknown remainder last in hex, at most nine items |
| IccProfile.FlagNames | BmpHeaderViewer/ParseBitmap.cpp:844-890 | no flag is listed exactly when the low nibble is clear |
| IccProfile.AttributeNames | BmpHeaderViewer/ParseBitmap.cpp:896-967 | no attribute is listed exactly when the low byte is clear |
| IccProfile.Attributes | BmpHeaderViewer/ParseBitmap.cpp:896-897 | the 64-bit attributes have the first big-endian DWORD low and the second high |
| IccProfile.IntentOf | BmpHeaderViewer/ParseBitmap.cpp:970-988 | the four ICC intents are named and any other value is kept as is |
| IccProfile.TagViews | BmpHeaderViewer/ParseBitmap.cpp:1027-1056 | one shown element per tag, in table order |
| IccProfile.DateTime | BmpHeaderViewer/ParseBitmap.cpp:833-839 | the date and time are six WORDs |
| IccProfile.Illuminant | BmpHeaderViewer/ParseBitmap.cpp:991-994 | the illuminant is three values |
| IccProfile.Words3 | BmpHeaderViewer/ParseBitmap.cpp:1009-1025 | a spectral range is three WORDs |
| IccProfile.FullHeader | BmpHeaderViewer/ParseBitmap.cpp:815-1056 | a recognised non-1.0 profile gets the full report |
| IccProfile.Report | BmpHeaderViewer/ParseBitmap.cpp:800-1056 | skipped exactly when neither signature nor version is recognised; CMM only for ColorSync 1.0; otherwise flags, profile ID from 4.0, spectral fields from 5.0 and every tag |
| IccProfile.ProfileHeaderShown | BmpHeaderViewer/ParseBitmap.cpp:800 | the header is shown when the signature is acsp or the version is that of ColorSync 1.0 |
| IccProfile.EmbeddedProfileCorrupt | BmpHeaderViewer/ParseBitmap.cpp:786-811 | an accepted profile is at least 128 bytes and, when its header is shown, records its own size |
| IccProfile.FirstNameFinds | BmpHeaderViewer/ParseBitmap.cpp:1298-1316 | a name is found exactly when the colour is in the table, and it is the first match's name |
| IccProfile.FirstName | BmpHeaderViewer/ParseBitmap.cpp:1298-1316 | no name exactly when no entry from the start index has the colour |
| IccProfile.GetColorName | BmpHeaderViewer/ParseBitmap.cpp:1298-1316 | the lookup loop reports whether the colour is named and, if so, the first name |
| IccProfile.LightGrayTwice | BmpHeaderViewer/ParseBitmap.h:93-97 | two different colours are both named "light gray" |
| MiscText.NCat | BmpHeaderViewer/Misc.cpp:269-278 | appending at most count characters keeps the prefix and adds min(count, length) |
| MiscText.Appended | BmpHeaderViewer/Misc.cpp:269-278 | the buffer keeps its text and gains a prefix of a bar followed by the name, all of it when it fits |
| MiscText.NCatInto | BmpHeaderViewer/Misc.cpp:269-278 | the array loop appends as NCat does and keeps the text terminated |
| MiscText.AppendFlagName | BmpHeaderViewer/Misc.cpp:269-278 | fails exactly for a missing buffer or name or an empty buffer, leaving the buffer alone; otherwise appends the bar-separated name within the capacity |
| MiscText.AppendAll | BmpHeaderViewer/ParseBitmap.cpp:844-890 | appending any list stays within the capacity |
| MiscText.AppendAllBehind | BmpHeaderViewer/ParseBitmap.cpp:844-890 | behind existing text, a list that fits is appended as bar-joined names |
| MiscText.AppendAllJoins | BmpHeaderViewer/ParseBitmap.cpp:844-890 | from an empty buffer, a list of non-empty names that fits yields exactly their bar-joined form |
| MiscText.JoinLength | BmpHeaderViewer/ParseBitmap.cpp:844-890 | the joined list is at most one separator plus the longest name per entry |
| MiscText.FlagListJoined | BmpHeaderViewer/ParseBitmap.cpp:844-890 | the flag names always fit the output line, so nothing is truncated |
| MiscText.AttributeNamesShort | BmpHeaderViewer/ParseBitmap.cpp:896-967 | every attribute item is non-empty and at most 18 characters |
| MiscText.AttributeListJoined | BmpHeaderViewer/ParseBitmap.cpp:896-967 | the attribute names always fit the output line |
| MiscText.Find | BmpHeaderViewer/Misc.cpp:318-325 | a found index matches the pattern at or after the start |
| MiscText.FindIsFirst | BmpHeaderViewer/Misc.cpp:318-325 | the found index is the first match, and nothing is found exactly when there is no match |
| MiscText.ReplacedStep | BmpHeaderViewer/Misc.cpp:333-346 | replacing copies up to the first match, then the replacement, then continues after the match, counting one more |
| MiscText.ReplacedLength | BmpHeaderViewer/Misc.cpp:328 | the result length is the original plus the count times the length difference |
| MiscText.Count | BmpHeaderViewer/Misc.cpp:318-325 | the non-overlapping matches take no more room than the text after the start |
| MiscText.Replaced | BmpHeaderViewer/Misc.cpp:328-346 | a replacement of the pattern's length keeps the length of the text after the start |
| MiscText.ReplacedBySelf | BmpHeaderViewer/Misc.cpp:309-350 | replacing a pattern with itself changes nothing |
| MiscText.ReplacedWithout | BmpHeaderViewer/Misc.cpp:309-350 | a string without the pattern is returned unchanged with a count of 0 |
| MiscText.ReplacedWith | BmpHeaderViewer/Misc.cpp:309-350 | a match with a replacement of another length changes the string |
| MiscText.CountPattern | BmpHeaderViewer/Misc.cpp:318-325 | the counting loop counts the non-overlapping matches |
| MiscText.WriteReplaced | BmpHeaderViewer/Misc.cpp:333-346 | the replacing loop fills the buffer with the replaced string and a NUL |
| MiscText.CopyInto | BmpHeaderViewer/Misc.cpp:339-346 | the array holds its old prefix followed by the copied text, and exactly that when the text reaches the end |
| MiscText.AllocReplaceString | BmpHeaderViewer/Misc.cpp:309-350 | null exactly when an argument is missing; otherwise a fresh buffer with every match replaced, NUL-terminated |
| MiscText.LastIndex | BmpHeaderViewer/Misc.cpp:370-372 | the last occurrence of the character, or none when it does not occur |
| MiscText.FileNameEnds | BmpHeaderViewer/Misc.cpp:370-375 | a file name exists exactly when the path has a separator; it is the path's tail after the last backslash, or after the last slash when there is no backslash |
| MiscText.ShortenedFits | BmpHeaderViewer/Misc.cpp:354-386 | the result fits the buffer and is empty, the path, the short name or a tail after a separator; a path that fits is kept |
| MiscText.Shortened | BmpHeaderViewer/Misc.cpp:354-386 | the returned length is that of the text, below a non-zero capacity, and a path that fits is kept |
| MiscText.GetShortPathName | BmpHeaderViewer/Misc.cpp:366-368 | returns the system's length; copies the short name only when it fits, else leaves the buffer alone |
| MiscText.ShortenPath | BmpHeaderViewer/Misc.cpp:354-386 | returns 0 and leaves the buffer alone for missing arguments or an empty buffer; otherwise leaves the shortened text and returns its length |
| ParseDib.HeaderCheck | BmpHeaderViewer/ParseBitmap.cpp:202-232 | corrupted exactly when the header is past the block or an unknown size under 16; unsupported exactly for other unknown sizes; passes exactly for a known size that fits |
| ParseDib.InfoBitsSize64 | BmpHeaderViewer/ParseBitmap.cpp:270 | the 64-bit bits size is below 2^64 |
| ParseDib.FixWidthEffect | BmpHeaderViewer/ParseBitmap.cpp:267-268 | the width becomes its absolute value (INT_MIN stays), nothing else changes, and fixing twice is fixing once |
| ParseDib.FixSizeImageEffect | BmpHeaderViewer/ParseBitmap.cpp:364-370 | SizeImage becomes the computed size exactly when it is fixed, no other field changes, and afterwards it needs no fix |
| ParseDib.FixWidth | BmpHeaderViewer/ParseBitmap.cpp:267-268 | the width becomes its absolute value (INT_MIN stays); a non-negative width leaves the block alone |
| ParseDib.FixSizeImage | BmpHeaderViewer/ParseBitmap.cpp:364-370 | the block is unchanged unless the fix applies, and then SizeImage becomes the different computed size |
| ParseDib.SanitizeEffect | BmpHeaderViewer/ParseBitmap.cpp:241-370 | a core DIB is untouched; otherwise only width and SizeImage may change, SizeImage exactly under the fix condition; the size limits make a DIB not displayable |
| ParseDib.SanitizeIdempotent | BmpHeaderViewer/ParseBitmap.cpp:241-370 | sanitising a sanitised block changes neither the block nor the verdicts |
| ParseDib.Sanitize | BmpHeaderViewer/ParseBitmap.cpp:241-370 | the block keeps its size; a core DIB is kept and not passed through; a four-character code is displayable and not passed through |
| ParseDib.MasksMissing | BmpHeaderViewer/ParseBitmap.cpp:455-464 | masks are missing only in a block shorter than 56 bytes; when present the palette offset is inside the block |
| ParseDib.PaletteMissing | BmpHeaderViewer/ParseBitmap.cpp:577-583 | when the palette is not reported missing, a non-V5 DIB with colours holds its whole palette |
| ParseDib.EffectiveOffset | BmpHeaderViewer/ParseBitmap.cpp:651-657 | a declared offset is used as is; the result is zero only when both offsets are |
| ParseDib.GrayEntries | BmpHeaderViewer/ParseBitmap.cpp:710-738 | the grey fill covers exactly the inserted gap |
| ParseDib.ShrunkTable | BmpHeaderViewer/ParseBitmap.cpp:704-709 | shrinking the colour table keeps the block size |
| ParseDib.Repair | BmpHeaderViewer/ParseBitmap.cpp:660-740 | no offset, the packed offset, or a small offset with no colours leaves the block alone; a gap or a grown table ends at the packed offset; a shrink keeps offset and size |
| ParseDib.BitsCroppedAsWritten | BmpHeaderViewer/ParseBitmap.cpp:742-748 | the DWORD check agrees with the exact check unless the sum wraps, where it compares the wrapped sum |
| ParseDib.ProfileOutsideAsWritten | BmpHeaderViewer/ParseBitmap.cpp:751-760 | the DWORD check agrees with the exact check unless the sum wraps, and it never flags a profile that fits |
| ParseDib.BitsCropped | BmpHeaderViewer/ParseBitmap.cpp:743-747 | bits not cropped start inside the block and their image size fits after the offset |
| ParseDib.ProfileOutside | BmpHeaderViewer/ParseBitmap.cpp:751-760 | a profile not outside starts inside the block |
| ParseDib.ProfileBytes | BmpHeaderViewer/ParseBitmap.cpp:786-793 | the embedded profile is ProfileSize bytes |
| ParseDib.EmbeddedProfileBad | BmpHeaderViewer/ParseBitmap.cpp:786-811 | an accepted embedded profile has at least a 128-byte header, and a shown header records the profile size |
| ParseDib.Examine | BmpHeaderViewer/ParseBitmap.cpp:172-1070 | no data exactly for an empty block; a shown DIB passed the header check, lies inside its block, has a sound embedded profile, and was displayable or pass-through |
| ParseDib.CheckAndRepair | BmpHeaderViewer/ParseBitmap.cpp:651-760 | missing masks or palette fail as corrupted; a parsed DIB was shown, has its profile inside it and a sound embedded profile; failures are corrupted, too large or not displayable |
| ParseDib.Finish | BmpHeaderViewer/ParseBitmap.cpp:742-811 | parsed exactly when shown with bits not cropped, the profile inside and the embedded profile sound, and then the block is kept; failures are corrupted or, when not shown, not displayable |
| ParseDib.ExamineNoOffset | BmpHeaderViewer/ParseBitmap.cpp:650-748 | without a declared offset a shown DIB is the sanitised block and its bits fit |
| ParseDib.ExamineSettles | BmpHeaderViewer/ParseBitmap.cpp:172-1070 | examining a shown DIB again shows the same DIB |
| ParseDib.RepairGap | BmpHeaderViewer/ParseBitmap.cpp:660-690 | a gap is closed: the bytes before the packed offset stay and the bits follow them |
| ParseDib.RepairGapSettles | BmpHeaderViewer/ParseBitmap.cpp:660-690 | after closing a gap the header is unchanged and the bits sit at the new offset |
| ParseDib.RepairShrinkTable | BmpHeaderViewer/ParseBitmap.cpp:704-709 | an overlap is absorbed by dropping the overlapped entries from ClrUsed, capping ClrImportant, and changing nothing else |
| ParseDib.GrayLevelRamp | BmpHeaderViewer/ParseBitmap.cpp:720-730 | the grey level of entry i of k is i*256/k, starting at 0 |
| ParseDib.GrayTableEntry | BmpHeaderViewer/ParseBitmap.cpp:720-730 | every inserted entry has its grey level in each colour byte |
| ParseDib.RepairGrow | BmpHeaderViewer/ParseBitmap.cpp:710-738 | growing inserts the gap at the declared offset, fills it with the grey ramp and zeros, and moves the bits to the packed offset |
| ParseDib.FillGray | BmpHeaderViewer/ParseBitmap.cpp:720-730 | the fill loop writes the grey entries into the zeroed gap and nothing else |
| ParseDib.CloseGap | BmpHeaderViewer/ParseBitmap.cpp:660-690 | the move and reallocation leave the block without the gap |
| ParseDib.ShrinkTable | BmpHeaderViewer/ParseBitmap.cpp:704-709 | the header writes give the shrunk table |
| ParseDib.OpenGap | BmpHeaderViewer/ParseBitmap.cpp:710-719 | the reallocation and move leave a zeroed gap at the declared offset |
| ParseDib.GrowTable | BmpHeaderViewer/ParseBitmap.cpp:710-738 | the grown block is the old one with the grey gap inserted |
| ParseDib.SanitizeInPlace | BmpHeaderViewer/ParseBitmap.cpp:241-370 | the header writes and verdicts are those of Sanitize |
| ParseDib.RepairInPlace | BmpHeaderViewer/ParseBitmap.cpp:660-740 | the in-place repair gives the block and offset of Repair |
| ParseDib.RepairShrinks | BmpHeaderViewer/ParseBitmap.cpp:704-709 | when the table can shrink, Repair is the shrunk table at the declared offset |
| ParseDib.RepairGrows | BmpHeaderViewer/ParseBitmap.cpp:710-738 | when the table must grow, Repair is the block with the grey gap, at the packed offset |
| ParseDib.RepairOverlap | BmpHeaderViewer/ParseBitmap.cpp:691-740 | the overlap branch gives the result of Repair |
| ParseDib.ShrinkOverlap | BmpHeaderViewer/ParseBitmap.cpp:704-709 | the shrinking branch gives the result of Repair in place |
| ParseDib.GrowOverlap | BmpHeaderViewer/ParseBitmap.cpp:710-738 | the growing branch gives the result of Repair in a new block |
| ParseDib.CheckAndRepairInPlace | BmpHeaderViewer/ParseBitmap.cpp:456-1069 | the checkpoints, repair and verdict fail or succeed as CheckAndRepair does, with its block |
| ParseDib.ParseDIBitmap | BmpHeaderViewer/ParseBitmap.cpp:172-1070 | fails exactly as Examine does, and otherwise leaves Examine's DIB |
| ParseDib.CropExampleFields | BmpHeaderViewer/ParseBitmap.cpp:742-748 | the example is a 40-byte 1x1 RLE8 header with SizeImage 0xFFFFFFF0 |
| ParseDib.CropCheckWraps | BmpHeaderViewer/ParseBitmap.cpp:743 | the DWORD sum wraps and passes a DIB whose bits run past the block; the corrected check rejects it |
| ParseDib.ProfileExampleFields | BmpHeaderViewer/ParseBitmap.cpp:751-760 | the example is a V5 header with a linked profile at 0xFFFFFFF0 of size 0x20 |
| ParseDib.ProfileCheckWraps | BmpHeaderViewer/ParseBitmap.cpp:755 | the DWORD sum wraps and passes a profile outside the block; the corrected check rejects it |
| ParseDib.ProfileExampleExamined | BmpHeaderViewer/ParseBitmap.cpp:751-760 | the corrected parse reports the example as corrupted |
| ParseDib.ParseBitmapFile | BmpHeaderViewer/ParseBitmap.cpp:38-168 | a short file is corrupted; a multi-entry bitmap array is reported as such exactly; a shown file has room for its headers, and an array of one wraps a 'BM' entry |
| ParseDib.SanitizeKeepsBitsOffset | BmpHeaderViewer/ParseBitmap.cpp:241-370 | sanitising does not move the bits |
| ParseDib.ExamineAtPackedOffset | BmpHeaderViewer/ParseBitmap.cpp:650-658 | declaring the packed offset is the same as declaring none |
| ParseDib.SavedFileParses | BmpHeaderViewer/ParseBitmap.cpp:38-168 | a file written by SaveBitmap parses as its DIB does |
| ParseDib.SavedFileHeader | BmpHeaderViewer/DibApi.cpp:53-56 | a saved file starts with 'BM', points past its header to the bits, and holds the DIB |
| ParseDib.SingleBitmapFile | BmpHeaderViewer/ParseBitmap.cpp:38-168 | a 'BM' file is parsed as the DIB after its 14-byte header |
| Viewer.FirstIndex | BmpHeaderViewer/BmpHeaderViewer.cpp:205-231 | the first occurrence of the character, or none when absent |
| Viewer.ClosingQuote | BmpHeaderViewer/BmpHeaderViewer.cpp:205-231 | a found closing quote is a quote inside the command line |
| Viewer.QuotedNameOfQuoted | BmpHeaderViewer/BmpHeaderViewer.cpp:205-231 | the name after the program's quoted path is taken up to its closing quote |
| Viewer.QuotedNameUnquoted | BmpHeaderViewer/BmpHeaderViewer.cpp:205-231 | without quotes the line is the name; with one quote, what follows it |
| Viewer.QuotedName | BmpHeaderViewer/BmpHeaderViewer.cpp:205-231 | the name is no longer than the command line and holds no quote |
| Viewer.NameStart | BmpHeaderViewer/BmpHeaderViewer.cpp:205-231 | the name starts inside the line |
| Viewer.NameCopy | BmpHeaderViewer/BmpHeaderViewer.cpp:205-231 | the copy holds the line and a NUL |
| Viewer.NameCopyText | BmpHeaderViewer/BmpHeaderViewer.cpp:205-231 | the terminated text from the start index is the quoted name |
| Viewer.AllocGetCmdLine | BmpHeaderViewer/BmpHeaderViewer.cpp:205-231 | null exactly for a missing or empty line; otherwise a fresh copy, and when the name is wanted its start index and terminated name |
| Viewer.Dispatch | BmpHeaderViewer/BmpHeaderViewer.cpp:1263-1297 | no reader for under 2 bytes; the bitmap reader exactly for 'BM' or 'BA'; the JPEG reader exactly for FF D8 |
| Viewer.SavedFileIsBitmap | BmpHeaderViewer/BmpHeaderViewer.cpp:1263-1297 | a file written by SaveBitmap goes to the bitmap reader |
| Viewer.DumpLength | BmpHeaderViewer/BmpHeaderViewer.cpp:1372-1373 | at most the limit is dumped, and all of a file that fits |
| Viewer.HexColumn | BmpHeaderViewer/BmpHeaderViewer.cpp:1390-1425 | three characters per byte |
| Viewer.AsciiColumn | BmpHeaderViewer/BmpHeaderViewer.cpp:1390-1425 | one character per byte |
| Viewer.RowBytes | BmpHeaderViewer/BmpHeaderViewer.cpp:1390-1425 | a row holds 1 to 16 bytes |
| Viewer.HexColumnAt | BmpHeaderViewer/BmpHeaderViewer.cpp:1390-1425 | byte k shows as its two hex digits and a space at column 3k |
| Viewer.AsciiColumnAt | BmpHeaderViewer/BmpHeaderViewer.cpp:1390-1425 | byte k shows as itself when printable, else a dot |
| Viewer.Shown | BmpHeaderViewer/BmpHeaderViewer.cpp:1413-1418 | the shown character is printable and is the byte itself unless it is a dot |
| Viewer.RowShape | BmpHeaderViewer/BmpHeaderViewer.cpp:1390-1425 | every row is 74 characters with its separators and CR LF in fixed places |
| Viewer.Row | BmpHeaderViewer/BmpHeaderViewer.cpp:1395-1423 | a row is 74 characters, starts with the four hex digits of its offset and ends with a bar and CR LF |
| Viewer.RowOffset | BmpHeaderViewer/BmpHeaderViewer.cpp:1390-1425 | the first four characters read back as the row's offset |
| Viewer.RowHexAt | BmpHeaderViewer/BmpHeaderViewer.cpp:1390-1425 | each hex pair of a row reads back as its byte |
| Viewer.RowAsciiAt | BmpHeaderViewer/BmpHeaderViewer.cpp:1390-1425 | each text column of a row shows its byte |
| Viewer.CatHexColumn | BmpHeaderViewer/BmpHeaderViewer.cpp:1390-1425 | the hex loop appends the hex column |
| Viewer.CatAsciiColumn | BmpHeaderViewer/BmpHeaderViewer.cpp:1390-1425 | the text loop appends the text column |
| Viewer.CatPadding | BmpHeaderViewer/BmpHeaderViewer.cpp:1390-1425 | the padding loop appends the padding |
| Viewer.FormatRow | BmpHeaderViewer/BmpHeaderViewer.cpp:1390-1425 | the row built in the buffer is Row |
| Viewer.HexDump | BmpHeaderViewer/BmpHeaderViewer.cpp:1361-1430 | one row per 16 dumped bytes, covering exactly the dumped prefix, each row formatted from its offset |
| Viewer.FirstCut | BmpHeaderViewer/BmpHeaderViewer.cpp:1788-1789 | a found cut-off index is inside the line |
| Viewer.FirstCutFinds | BmpHeaderViewer/BmpHeaderViewer.cpp:1788-1789 | the found index is the first cut-off character, and none is found exactly when there is none |
| Viewer.Reverse | BmpHeaderViewer/BmpHeaderViewer.cpp:1796-1797 | reversing keeps the length |
| Viewer.ReverseAt | BmpHeaderViewer/BmpHeaderViewer.cpp:1796-1797 | position k of the reverse is position n-1-k |
| Viewer.WordEndAtCut | BmpHeaderViewer/BmpHeaderViewer.cpp:1788-1793 | the word ends at the first cut-off character at or after the caret, or at the line end |
| Viewer.WordStartAtCut | BmpHeaderViewer/BmpHeaderViewer.cpp:1795-1808 | the word starts after the last cut-off character before the caret, or at the line start |
| Viewer.WordEnd | BmpHeaderViewer/BmpHeaderViewer.cpp:1786-1793 | the word ends at or after the caret, inside the line |
| Viewer.WordStart | BmpHeaderViewer/BmpHeaderViewer.cpp:1795-1808 | the word starts at or before the caret |
| Viewer.WordAroundCaret | BmpHeaderViewer/BmpHeaderViewer.cpp:1780-1808 | the selection surrounds the caret, holds no cut-off character, and cannot be extended |
| Viewer.ReverseInPlace | BmpHeaderViewer/BmpHeaderViewer.cpp:1796-1797 | the prefix is reversed in place and the rest unchanged |
| Viewer.CappedLineLength | BmpHeaderViewer/BmpHeaderViewer.cpp:1770-1775 | the corrected cap keeps the line and its NUL inside the 1024-character buffer |
| Viewer.CaretColumn | BmpHeaderViewer/BmpHeaderViewer.cpp:1780-1781 | the corrected caret column stays within the loaded line |
| Viewer.LineNulIndexAsWritten | BmpHeaderViewer/BmpHeaderViewer.cpp:1770-1775 | as written the NUL goes at the line length, or at index 1024 for a line of 1024 or more characters |
| Viewer.CaretColumnAsWritten | BmpHeaderViewer/BmpHeaderViewer.cpp:1780-1781 | as written the caret column has no cap: for a caret on its line it is non-negative, and it is the column CaretColumn gives when the cap does not bite |
| Viewer.SelectTextOverrun | BmpHeaderViewer/BmpHeaderViewer.cpp:1770-1796 | for every line of 1024 or more characters and every caret on it, the source puts the NUL at index 1024, past the buffer, and a caret column from 1024 on lies past it, while the corrected column stays inside |
| Viewer.SelectTextInBounds | BmpHeaderViewer/BmpHeaderViewer.cpp:1770-1788 | with the correction, every index used is inside the buffer |
| Viewer.ScanWord | BmpHeaderViewer/BmpHeaderViewer.cpp:1780-1808 | the scans find the word's start and end |
| Viewer.SelectText | BmpHeaderViewer/BmpHeaderViewer.cpp:1753-1811 | empty text selects nothing; an existing selection returns its length; otherwise the word around the caret is selected, and nothing when it is empty |
| Viewer.LoadLine | BmpHeaderViewer/BmpHeaderViewer.cpp:1773-1775 | the line is loaded into a fresh 1024-character buffer, NUL-terminated |
| Viewer.SelectWord | BmpHeaderViewer/BmpHeaderViewer.cpp:1767-1808 | the selected range is the word around the caret in the capped line |

## Left out

- Window, edit-control and GDI calls are not modelled: output to the edit control, `Edit_GetLine` and the caret queries, `SetClipboardData`, and drawing. `SelectText` takes the text length, selection, line start and line as parameters.
- Report text formatting is not modelled. The model gives what each field shows, not the `printf` layout or the localised strings.
- File I/O is not modelled. `ParseFile`, `HexDump` and `SaveBitmap` take and return byte sequences. `SaveBitmap` returns `None` where the source's write fails for a saved size past the block.
- The JPEG reader that `ParseFile` dispatches to is not part of this model.
- IsDibSupported / QueryDibSupport ask the display driver. That verdict is the parameter `supported`.
- GetShortPathName is a system call. Its answer is the parameter `short`.
- Allocation failures of `GlobalAlloc`, `GlobalReAlloc` and `HeapAlloc` are not modelled. `TooLarge` stands for growth past 4 GiB.
- The structured exception handlers around the re-layout copies are replaced by explicit bounds checks. A re-layout that would read past the block fails.
- TagsRead: reads only tag entries inside the profile, where the source reads the declared count of entries with no bound (a finding below).
- TagDataView: shows nothing for an element whose offset and size leave the profile, where the source reads it with no bound and no handler.
- Floating-point output is not modelled. The s15Fixed16, u8Fixed8 and half-float values are kept as the integers they are printed from.
- UTF-8 and code-page conversion for display are not modelled. 'utf8' elements are shown as their bytes, and 'mluc' as UTF-16 code units.
- C strings are modelled as character sequences without an embedded NUL.
- DibImageSize: the declaration at DibApi.h:96 has no `bCalculate` argument, and every caller passes one argument. The model keeps the parameter and callers pass false.
- Examine: requires a block of 0 or at least 4 bytes. The file wrapper always supplies at least a 12-byte header after its file header.
- AllocReplaceString: requires a non-empty pattern when one is given. On an empty pattern the source's counting loop never advances.
- AllocReplaceString: SIZE_T wrap-around of the result length is not modelled.
- Finish: the gap repair uses the bits offset, which the source computes as a DWORD sum through ProfileSize. When that sum wraps, the source's block ends up shorter than its header and the later reads run past it with no handler. Finish reports a repaired block that no longer holds its header as corrupted, so the model does not follow the source into those reads.
- CopyInto: states the written prefix only. It is a helper whose callers never read the tail.
- Bitmap arrays with more than one entry, icons and pointers are only classified, not decoded.
- The ICC profile report covers a recognised profile header. The tag elements of types other than those above show nothing.

## Findings

| source | as written | input that shows it | evidently intended | confidence | as-written member | corrected member |
|---|---|---|---|---|---|---|
| BmpHeaderViewer/ParseBitmap.cpp:743 | the cropped-bits check adds offset and image size as DWORDs, so the sum wraps | a 40-byte 1x1 RLE8 header with SizeImage 0xFFFFFFF0 and the bits at offset 40 passes the check (`CropExample`) | reject a DIB whose bits end past the block, comparing the exact sum | not executed | ParseDib.BitsCroppedAsWritten, exhibited by ParseDib.CropCheckWraps | ParseDib.BitsCropped, used by ParseDib.Examine; ParseDib.ExamineNoOffset proves the bits of a shown DIB fit |
| BmpHeaderViewer/ParseBitmap.cpp:755 | the profile bounds check adds ProfileData and ProfileSize as DWORDs, so the sum wraps | a V5 header with a linked profile at 0xFFFFFFF0 of size 0x20 passes the check (`ProfileExample`) | reject a profile that ends past the block, comparing the exact sum | not executed | ParseDib.ProfileOutsideAsWritten, exhibited by ParseDib.ProfileCheckWraps | ParseDib.ProfileOutside, used by ParseDib.Examine, whose contract excludes it for every shown DIB |
| BmpHeaderViewer/BmpHeaderViewer.cpp:1770-1775 | the line length is capped at 1024, then `szLine[nLineLen]` is written to a 1024-character buffer; the caret column is not capped either | a line of 1024 or more characters, with the caret past column 1023 | cap the line at 1023 characters and the caret column at the line length | not executed | Viewer.LineNulIndexAsWritten and Viewer.CaretColumnAsWritten, exhibited by Viewer.SelectTextOverrun | Viewer.CappedLineLength and Viewer.CaretColumn, used by Viewer.SelectText; Viewer.SelectTextInBounds proves every index stays in the buffer |
| BmpHeaderViewer/ParseBitmap.cpp:1027-1056 | the tag walk reads the tag count at offset 128 and then 12 bytes per declared entry, with no bound by the profile size and no exception handler | a 128-byte profile holding only its header, with the 'acsp' signature and size 128, passes the embedded-profile checks, and the walk reads at least 4 bytes past it (`HeaderOnlyProfile`) | stop the walk at the end of the profile | not executed | IccProfile.TagWalkEndAsWritten, exhibited by IccProfile.TagWalkOverrun | IccProfile.TagsRead and IccProfile.TagTable; IccProfile.TagWalkBounded proves the entries read lie inside the profile |
| BmpHeaderViewer/ParseBitmap.cpp:1193-1197 | the 'utf8' buffer is allocated as the unit count plus sizeof(WCHAR) bytes, while the conversion writes that many WCHARs and the search after it relies on a zero WCHAR behind them | a 'utf8' element of three or more UTF-16 units | allocate one WCHAR per unit plus one for the NUL | not executed | IccProfile.Utf16AllocAsWritten, exhibited by IccProfile.Utf8AllocOverrun | IccProfile.Utf16Bytes; IccProfile.Utf8AllocOverrun proves it holds every unit and the NUL |
