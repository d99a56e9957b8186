// The text handling of the viewer's dialog: the file name taken from the
// command line, the choice of parser from a file's first two bytes, the
// rows of the hex dump shown for files of unknown type, and the word a
// click without a selection selects in the output window.

module Viewer {
  import opened Bytes
  import opened MiscText
  import opened DibGeometry
  import opened DibSave

  // AllocGetCmdLine

  /** `_tcschr`: the position of the first occurrence of c, if any. */
  function FirstIndex(s: seq<char>, c: char): (r: Option<nat>)
    ensures r.Some? ==> r.value < |s| && s[r.value] == c && c !in s[..r.value]
    ensures r.None? ==> c !in s
  {
    if s == [] then None
    else if s[0] == c then Some(0)
    else
      var r := FirstIndex(s[1..], c);
      assert s == [s[0]] + s[1..];
      if r.Some? then
        assert s[..r.value + 1] == [s[0]] + s[1..][..r.value];
        Some(r.value + 1)
      else None
  }

  /** The position of the quote that ends a quoted file name, if any. */
  function ClosingQuote(cmd: seq<char>): (r: Option<nat>)
    ensures r.Some? ==> r.value < |cmd| && cmd[r.value] == '"'
  {
    match FirstIndex(cmd, '"')
    case None => None
    case Some(q) =>
      match FirstIndex(cmd[q + 1..], '"')
      case None => None
      case Some(k) => Some(q + 1 + k)
  }

  /** The file name on a command line: the text between the first quote and
      the next one, the rest of the line behind a lone quote, or the whole
      line when it has no quote. */
  function QuotedName(cmd: seq<char>): (r: seq<char>)
    ensures |r| <= |cmd| && '"' !in r
  {
    match FirstIndex(cmd, '"')
    case None => cmd
    case Some(q) =>
      var rest := cmd[q + 1..];
      match FirstIndex(rest, '"')
      case None => rest
      case Some(k) => rest[..k]
  }

  /** A name written in quotes is the name taken, whatever precedes the
      quotes (without a quote) and follows them. */
  lemma QuotedNameOfQuoted(pre: seq<char>, name: seq<char>, post: seq<char>)
    requires '"' !in pre && '"' !in name
    ensures QuotedName(pre + ['"'] + name + ['"'] + post) == name
  {
    var cmd := pre + ['"'] + name + ['"'] + post;
    assert cmd[..|pre|] == pre && cmd[|pre|] == '"';
    assert FirstIndex(cmd, '"') == Some(|pre|);
    var rest := cmd[|pre| + 1..];
    assert rest == name + ['"'] + post;
    assert rest[..|name|] == name && rest[|name|] == '"';
    assert FirstIndex(rest, '"') == Some(|name|);
  }

  /** A line without a quote is the name as it is; behind a lone quote the
      rest of the line is. */
  lemma QuotedNameUnquoted(pre: seq<char>, post: seq<char>)
    requires '"' !in pre && '"' !in post
    ensures QuotedName(pre) == pre
    ensures QuotedName(pre + ['"'] + post) == post
  {
    var cmd := pre + ['"'] + post;
    assert cmd[..|pre|] == pre && cmd[|pre|] == '"';
    assert FirstIndex(cmd, '"') == Some(|pre|);
    assert cmd[|pre| + 1..] == post;
  }

  /** Where the file name starts in the command line: behind the first
      quote, or at the start. */
  function NameStart(cmd: seq<char>): (r: nat)
    ensures r <= |cmd|
  {
    match FirstIndex(cmd, '"')
    case None => 0
    case Some(q) => q + 1
  }

  /** The copy of the command line once the quote closing the name is
      overwritten with a NUL. */
  function NameCopy(cmd: seq<char>): (r: seq<char>)
    ensures |r| == |cmd| + 1
  {
    var copy := cmd + [NUL];
    match ClosingQuote(cmd)
    case None => copy
    case Some(q) => copy[q := NUL]
  }

  /** Read as a C string from where the name starts, the copy holds exactly
      the quoted name. */
  lemma NameCopyText(cmd: seq<char>)
    requires NUL !in cmd
    ensures Text(NameCopy(cmd)[NameStart(cmd)..]) == QuotedName(cmd)
  {
    var copy := NameCopy(cmd);
    match FirstIndex(cmd, '"')
    case None =>
      assert copy == cmd + [NUL] + [];
      CStringOfTerminated(cmd, NUL, []);
    case Some(open) =>
      var name := open + 1;
      var rest := cmd[name..];
      match FirstIndex(rest, '"')
      case None =>
        assert copy[name..] == rest + [NUL] + [];
        CStringOfTerminated(rest, NUL, []);
      case Some(k) =>
        var q := name + k;
        assert copy[name..] == rest[..k] + [NUL] + copy[q + 1..];
        CStringOfTerminated(rest[..k], NUL, copy[q + 1..]);
  }

  /** AllocGetCmdLine: null for a missing or empty command line; otherwise a
      fresh NUL-terminated copy of it. When the caller asks for the file
      name, it starts behind the first quote and the quote that closes it
      is overwritten with a NUL in the copy, so that the name reads as the
      quoted text. */
  method AllocGetCmdLine(cmdLine: Option<seq<char>>, wantName: bool) returns (buf: array?<char>, name: nat)
    requires cmdLine.Some? ==> NUL !in cmdLine.value
    ensures buf == null <==> cmdLine.None? || cmdLine.value == []
    ensures buf != null ==> fresh(buf)
    ensures buf != null && !wantName ==> buf[..] == cmdLine.value + [NUL] && name == 0
    ensures buf != null && wantName ==>
              buf[..] == NameCopy(cmdLine.value) && name == NameStart(cmdLine.value)
              && Text(buf[name..]) == QuotedName(cmdLine.value)
  {
    if cmdLine.None? || cmdLine.value == [] {
      return null, 0;
    }
    var cmd := cmdLine.value;
    buf := new char[|cmd| + 1];
    CopyInto(buf, 0, cmd + [NUL]);
    name := 0;
    if !wantName {
      return;
    }
    ghost var copy := buf[..];
    var open := FirstIndex(cmd, '"');
    if open.Some? {
      name := open.value + 1;
      var close := FirstIndex(cmd[name..], '"');
      if close.Some? {
        assert ClosingQuote(cmd) == Some(name + close.value);
        buf[name + close.value] := NUL;
        assert buf[..] == copy[name + close.value := NUL];
      } else {
        assert ClosingQuote(cmd) == None;
      }
    } else {
      assert ClosingQuote(cmd) == None;
    }
    NameCopyText(cmd);
  }

  // ParseFile

  /** What ParseFile does with a file, from its first two bytes. */
  datatype FileKind =
    | NoMagic     // the two bytes cannot be read
    | BitmapFile  // "BM" or "BA": the bitmap parser
    | JpegFile    // FF D8: the JPEG reader
    | UnknownFile // anything else: the hex dump

  const BFT_ARRAY: int := 0x4142

  function Dispatch(f: seq<byte>): (k: FileKind)
    ensures k == NoMagic <==> |f| < 2
    ensures k == BitmapFile <==> |f| >= 2 && LE16(f, 0) in {BFT_BITMAP, BFT_ARRAY}
    ensures k == JpegFile <==> |f| >= 2 && f[0] == 0xFF && f[1] == 0xD8
  {
    if |f| < 2 then NoMagic
    else if f[..2] == ['B' as byte, 'M' as byte] || f[..2] == ['B' as byte, 'A' as byte] then
      assert f[0] == f[..2][0] && f[1] == f[..2][1];
      BitmapFile
    else if f[0] == 0xFF && f[1] == 0xD8 then JpegFile
    else
      assert f[..2] == [f[0], f[1]];
      UnknownFile
  }

  /** A file written by SaveBitmap goes to the bitmap parser. */
  lemma SavedFileIsBitmap(d: seq<byte>)
    requires Headed(d) && SavedFile(d).Some?
    ensures Dispatch(SavedFile(d).value) == BitmapFile
  {
    FileHeaderFields(d);
    var f := SavedFile(d).value;
    assert f[0] == FileHeader(d)[0] && f[1] == FileHeader(d)[1];
  }

  // HexDump

  const COLUMNS: nat := 16
  const DUMP_LIMIT: nat := 1024
  const ROW_BUFFER: nat := 1024

  /** The number of bytes dumped: the file's size, at most 1024. */
  function DumpLength(size: nat): (n: nat)
    ensures n <= DUMP_LIMIT && (size <= DUMP_LIMIT ==> n == size)
  {
    if size > DUMP_LIMIT then DUMP_LIMIT else size
  }

  /** What the ASCII column shows for a byte: the character when it is
      printable, a '.' otherwise. */
  function Shown(b: byte): (c: char)
    ensures IsPrint(c as int)
    ensures c != '.' ==> c as int == b
  {
    if IsPrint(b) then b as char else '.'
  }

  /** The hex column: two upper-case hex digits and a space per byte. */
  function HexColumn(bs: seq<byte>): (r: string)
    ensures |r| == 3 * |bs|
  {
    if bs == [] then [] else HexColumn(bs[..|bs| - 1]) + HexN(bs[|bs| - 1], 2) + " "
  }

  /** The ASCII column: one character per byte. */
  function AsciiColumn(bs: seq<byte>): (r: string)
    ensures |r| == |bs|
  {
    if bs == [] then [] else AsciiColumn(bs[..|bs| - 1]) + [Shown(bs[|bs| - 1])]
  }

  /** A piece repeated m times (the padding of a short last row). */
  function Repeat(piece: string, m: nat): (r: string)
    ensures |r| == |piece| * m
  {
    if m == 0 then [] else Repeat(piece, m - 1) + piece
  }

  /** The bytes of the row at offset i. */
  function RowBytes(data: seq<byte>, i: nat): (bs: seq<byte>)
    requires i < |data|
    ensures 0 < |bs| <= COLUMNS
  {
    data[i..if |data| - i > COLUMNS then i + COLUMNS else |data|]
  }

  /** The offset and hex part of the row at offset i: the offset as four hex
      digits and "| ", the bytes in hex padded to 16 columns, and "|". */
  function RowHead(data: seq<byte>, i: nat): string
    requires i < |data|
  {
    var bs := RowBytes(data, i);
    HexN(i, 4) + "| " + HexColumn(bs) + Repeat("   ", COLUMNS - |bs|) + "|"
  }

  /** The row of the dump at offset i: its head, the bytes as characters
      padded to 16 columns, and "|" with a line break. */
  function Row(data: seq<byte>, i: nat): (r: string)
    requires i < |data|
    ensures |r| == 74 && r[..4] == HexN(i, 4) && r[71..] == "|\r\n"
  {
    var bs := RowBytes(data, i);
    var m := COLUMNS - |bs|;
    assert |Repeat("   ", m)| == 3 * m;
    assert |Repeat(" ", m)| == m;
    RowHead(data, i) + AsciiColumn(bs) + Repeat(" ", m) + "|\r\n"
  }

  /** The digits of byte k of a hex column, and the space behind them. */
  lemma {:induction false} HexColumnAt(bs: seq<byte>, k: nat)
    requires k < |bs|
    ensures var hex, digits := HexColumn(bs), HexN(bs[k], 2);
            hex[3 * k] == digits[0] && hex[3 * k + 1] == digits[1] && hex[3 * k + 2] == ' '
    decreases |bs|
  {
    if k < |bs| - 1 {
      HexColumnAt(bs[..|bs| - 1], k);
    }
  }

  /** The character of byte k of an ASCII column. */
  lemma {:induction false} AsciiColumnAt(bs: seq<byte>, k: nat)
    requires k < |bs|
    ensures AsciiColumn(bs)[k] == Shown(bs[k])
    decreases |bs|
  {
    if k < |bs| - 1 {
      AsciiColumnAt(bs[..|bs| - 1], k);
    }
  }

  /** Every row has the same width of 74 characters, with the column
      separators in the same places and the line break at the end. */
  lemma RowShape(data: seq<byte>, i: nat)
    requires i < |data|
    ensures var r := Row(data, i);
            |RowHead(data, i)| == 55 && |r| == 74
            && r[4..6] == "| " && r[54] == '|' && r[71..] == "|\r\n"
  {
    var bs := RowBytes(data, i);
    var m := COLUMNS - |bs|;
    assert |Repeat("   ", m)| == 3 * m;
    assert |Repeat(" ", m)| == m;
  }

  /** The first four characters of a row read back as its offset. */
  lemma RowOffset(data: seq<byte>, i: nat)
    requires i < |data| <= DUMP_LIMIT
    ensures ReadHex(Row(data, i)[..4]) == i
  {
    assert Pow16(4) == 0x10000 by {
      assert Pow16(1) == 16;
      assert Pow16(2) == 256;
      assert Pow16(3) == 4096;
    }
    HexNRoundTrip(i, 4);
    assert Row(data, i)[..4] == HexN(i, 4);
  }

  /** Character j of the hex column is character 6 + j of the row. */
  lemma RowHexChar(data: seq<byte>, i: nat, j: nat)
    requires i < |data| && j < 3 * |RowBytes(data, i)|
    ensures Row(data, i)[6 + j] == HexColumn(RowBytes(data, i))[j]
  {
    var bs := RowBytes(data, i);
    var pre := HexN(i, 4) + "| ";
    var hex := HexColumn(bs);
    var head := RowHead(data, i);
    RowShape(data, i);
    assert Row(data, i)[6 + j] == head[6 + j];
    assert head[6 + j] == (pre + hex)[6 + j];
  }

  /** The hex column of a row reads back as the bytes of the row. */
  lemma RowHexAt(data: seq<byte>, i: nat, k: nat)
    requires i < |data| && k < |RowBytes(data, i)|
    ensures ReadHex(Row(data, i)[6 + 3 * k..8 + 3 * k]) == data[i + k]
  {
    var bs := RowBytes(data, i);
    var digits := HexN(bs[k], 2);
    HexColumnAt(bs, k);
    RowShape(data, i);
    var r := Row(data, i);
    RowHexChar(data, i, 3 * k);
    RowHexChar(data, i, 3 * k + 1);
    assert r[6 + 3 * k] == digits[0] && r[7 + 3 * k] == digits[1];
    assert r[6 + 3 * k..8 + 3 * k] == digits;
    assert Pow16(2) == 256 by {
      assert Pow16(1) == 16;
    }
    HexNRoundTrip(bs[k], 2);
  }

  /** The ASCII column of a row shows the bytes of the row. */
  lemma RowAsciiAt(data: seq<byte>, i: nat, k: nat)
    requires i < |data| && k < |RowBytes(data, i)|
    ensures Row(data, i)[55 + k] == Shown(data[i + k])
  {
    var bs := RowBytes(data, i);
    RowShape(data, i);
    AsciiColumnAt(bs, k);
    assert Row(data, i)[55 + k] == AsciiColumn(bs)[k];
  }

  /** `_tcsncat` that never truncates: the row stays far below the room
      the output buffer has. */
  lemma NCatWhole(dst: seq<char>, src: seq<char>, count: nat)
    requires |src| <= count
    ensures NCat(dst, src, count) == dst + src
  {
  }

  /** Appends the hex column of bs with `_tcsncat`, limited to the room left
      in the output buffer but for four characters. */
  method CatHexColumn(row0: string, bs: seq<byte>) returns (row: string)
    requires |row0| + 3 * |bs| + 4 <= ROW_BUFFER
    ensures row == row0 + HexColumn(bs)
  {
    row := row0;
    var j := 0;
    while j < |bs|
      invariant j <= |bs| && row == row0 + HexColumn(bs[..j])
    {
      NCatWhole(row, HexN(bs[j], 2) + " ", ROW_BUFFER - |row| - 4);
      row := NCat(row, HexN(bs[j], 2) + " ", ROW_BUFFER - |row| - 4);
      assert bs[..j + 1][..j] == bs[..j];
      j := j + 1;
    }
    assert bs[..j] == bs;
  }

  /** Appends the ASCII column of bs the same way. */
  method CatAsciiColumn(row0: string, bs: seq<byte>) returns (row: string)
    requires |row0| + |bs| + 4 <= ROW_BUFFER
    ensures row == row0 + AsciiColumn(bs)
  {
    row := row0;
    var j := 0;
    while j < |bs|
      invariant j <= |bs| && row == row0 + AsciiColumn(bs[..j])
    {
      NCatWhole(row, [Shown(bs[j])], ROW_BUFFER - |row| - 4);
      row := NCat(row, [Shown(bs[j])], ROW_BUFFER - |row| - 4);
      assert bs[..j + 1][..j] == bs[..j];
      j := j + 1;
    }
    assert bs[..j] == bs;
  }

  lemma {:induction false} RepeatGrows(piece: string, j: nat, m: nat)
    requires j <= m
    ensures |Repeat(piece, j)| <= |Repeat(piece, m)|
    decreases m
  {
    if j < m {
      RepeatGrows(piece, j, m - 1);
    }
  }

  /** Appends a padding piece m times the same way. */
  method CatPadding(row0: string, piece: string, m: nat) returns (row: string)
    requires |row0| + |Repeat(piece, m)| + 4 <= ROW_BUFFER
    ensures row == row0 + Repeat(piece, m)
  {
    row := row0;
    var j := 0;
    while j < m
      invariant j <= m && row == row0 + Repeat(piece, j)
    {
      RepeatGrows(piece, j + 1, m);
      NCatWhole(row, piece, ROW_BUFFER - |row| - 4);
      row := NCat(row, piece, ROW_BUFFER - |row| - 4);
      j := j + 1;
    }
  }

  /** The row the dump loop builds for offset i, piece by piece. */
  method FormatRow(data: seq<byte>, i: nat) returns (row: string)
    requires i < |data| <= DUMP_LIMIT
    ensures row == Row(data, i)
  {
    var c := if |data| - i > COLUMNS then COLUMNS else |data| - i;
    var bs := data[i..i + c];
    assert bs == RowBytes(data, i);
    row := HexN(i, 4) + "| ";
    row := CatHexColumn(row, bs);
    row := CatPadding(row, "   ", COLUMNS - c);
    NCatWhole(row, "|", ROW_BUFFER - |row| - 4);
    row := NCat(row, "|", ROW_BUFFER - |row| - 4);
    assert row == RowHead(data, i);
    row := CatAsciiColumn(row, bs);
    row := CatPadding(row, " ", COLUMNS - c);
    NCatWhole(row, "|\r\n", ROW_BUFFER - |row| - 1);
    row := NCat(row, "|\r\n", ROW_BUFFER - |row| - 1);
  }

  /** HexDump: the first bytes of the file, at most 1024, one row per 16
      bytes (the last one possibly shorter), at offsets 0, 16, 32, ...; as
      many rows as it takes to hold them and no more. */
  method HexDump(file: seq<byte>) returns (rows: seq<string>)
    ensures var n := DumpLength(|file|);
            n <= COLUMNS * |rows| < n + COLUMNS
            && forall r | 0 <= r < |rows| :: COLUMNS * r < n && rows[r] == Row(file[..n], COLUMNS * r)
  {
    var n := DumpLength(|file|);
    var data := file[..n];
    rows := [];
    var i := 0;
    while i < n
      invariant i == COLUMNS * |rows| < n + COLUMNS
      invariant forall r | 0 <= r < |rows| :: COLUMNS * r < n && rows[r] == Row(data, COLUMNS * r)
      decreases n + COLUMNS - i
    {
      var row := FormatRow(data, i);
      rows := rows + [row];
      i := i + COLUMNS;
    }
  }

  // SelectText

  /** Characters that end a word selected by a click. */
  const CUT_OFF_CHARS: string := " \t\"<>()[]{}|#"
  const LINE_BUFFER: nat := 1024

  /** `_tcspbrk`: the position of the first cut-off character, if any. */
  function FirstCut(s: seq<char>): (r: Option<nat>)
    ensures r.Some? ==> r.value < |s|
  {
    if s == [] then None
    else if s[0] in CUT_OFF_CHARS then Some(0)
    else match FirstCut(s[1..])
      case None => None
      case Some(k) => Some(k + 1)
  }

  lemma {:induction false} FirstCutFinds(s: seq<char>)
    ensures FirstCut(s).Some? ==>
              s[FirstCut(s).value] in CUT_OFF_CHARS && forall k | 0 <= k < FirstCut(s).value :: s[k] !in CUT_OFF_CHARS
    ensures FirstCut(s).None? ==> forall k | 0 <= k < |s| :: s[k] !in CUT_OFF_CHARS
  {
    if s != [] && s[0] !in CUT_OFF_CHARS {
      FirstCutFinds(s[1..]);
      assert forall k | 1 <= k < |s| :: s[k] == s[1..][k - 1];
    }
  }

  /** `_tcsrev`: the characters in reverse order. */
  function Reverse(s: seq<char>): (r: seq<char>)
    ensures |r| == |s|
  {
    if s == [] then [] else [s[|s| - 1]] + Reverse(s[..|s| - 1])
  }

  lemma {:induction false} ReverseAt(s: seq<char>, k: nat)
    requires k < |s|
    ensures Reverse(s)[k] == s[|s| - 1 - k]
    decreases |s|
  {
    if k > 0 {
      ReverseAt(s[..|s| - 1], k - 1);
    }
  }

  /** The end of the word at column col: the first cut-off character at or
      behind it, or the end of the line. */
  function WordEnd(t: seq<char>, col: nat): (e: nat)
    requires col <= |t|
    ensures col <= e <= |t|
  {
    match FirstCut(t[col..])
    case None => |t|
    case Some(k) => col + k
  }

  /** The start of the word at column col: behind the last cut-off
      character before it, found in the reversed text before it, or the
      start of the line. */
  function WordStart(t: seq<char>, col: nat): (s: nat)
    requires col <= |t|
    ensures s <= col
  {
    match FirstCut(Reverse(t[..col]))
    case None => 0
    case Some(k) => col - k
  }

  /** The word ends at the first cut-off character at or behind the caret,
      or at the end of the line. */
  lemma WordEndAtCut(t: seq<char>, col: nat)
    requires col <= |t|
    ensures var e := WordEnd(t, col);
            col <= e <= |t| && (forall k | col <= k < e :: t[k] !in CUT_OFF_CHARS)
            && (e == |t| || t[e] in CUT_OFF_CHARS)
  {
    FirstCutFinds(t[col..]);
    var e := WordEnd(t, col);
    forall k | col <= k < e
      ensures t[k] !in CUT_OFF_CHARS
    {
      assert t[k] == t[col..][k - col];
    }
    if e < |t| {
      assert t[e] == t[col..][e - col];
    }
  }

  /** The word starts behind the last cut-off character before the caret,
      or at the start of the line. */
  lemma WordStartAtCut(t: seq<char>, col: nat)
    requires col <= |t|
    ensures var s := WordStart(t, col);
            s <= col && (forall k | s <= k < col :: t[k] !in CUT_OFF_CHARS)
            && (s == 0 || t[s - 1] in CUT_OFF_CHARS)
  {
    var before := t[..col];
    var rev := Reverse(before);
    FirstCutFinds(rev);
    var s := WordStart(t, col);
    forall k | s <= k < col
      ensures t[k] !in CUT_OFF_CHARS
    {
      ReverseAt(before, col - 1 - k);
    }
    if s > 0 {
      ReverseAt(before, col - s);
    }
  }

  /** The selected word is the longest run of characters without a
      cut-off character around the caret: none inside, and a cut-off
      character or the end of the line on either side. */
  lemma WordAroundCaret(t: seq<char>, col: nat)
    requires col <= |t|
    ensures var s, e := WordStart(t, col), WordEnd(t, col);
            s <= col <= e <= |t|
            && (forall k | s <= k < e :: t[k] !in CUT_OFF_CHARS)
            && (s == 0 || t[s - 1] in CUT_OFF_CHARS)
            && (e == |t| || t[e] in CUT_OFF_CHARS)
  {
    WordEndAtCut(t, col);
    WordStartAtCut(t, col);
  }

  /** Reverses the first n characters of the buffer in place. */
  method ReverseInPlace(a: array<char>, n: nat)
    requires n <= a.Length
    modifies a
    ensures a[..n] == Reverse(old(a[..n])) && a[n..] == old(a[n..])
  {
    ghost var s := a[..n];
    var i := 0;
    while i < n / 2
      invariant i <= n / 2 && a[n..] == old(a[n..])
      invariant forall k | 0 <= k < i :: a[k] == s[n - 1 - k] && a[n - 1 - k] == s[k]
      invariant forall k | i <= k < n - i :: a[k] == s[k]
    {
      a[i], a[n - 1 - i] := a[n - 1 - i], a[i];
      i := i + 1;
    }
    forall k | 0 <= k < n
      ensures a[..n][k] == Reverse(s)[k]
    {
      ReverseAt(s, k);
    }
  }

  /** The number of characters SelectText copies out of a line: at most
      1023, so that the NUL behind them stays inside the 1024-character
      buffer. */
  function CappedLineLength(len: nat): (n: nat)
    ensures n < LINE_BUFFER && n <= len && (len < LINE_BUFFER ==> n == len)
  {
    if len > LINE_BUFFER - 1 then LINE_BUFFER - 1 else len
  }

  /** The caret's column in the copied part of the line. */
  function CaretColumn(caret: int, lineStart: int, n: nat): (col: nat)
    requires lineStart <= caret
    ensures col <= n && (caret - lineStart <= n ==> col == caret - lineStart)
  {
    if caret - lineStart > n then n else caret - lineStart
  }

  /** The index the source stores the line's NUL at: the line length capped
      at 1024. */
  function LineNulIndexAsWritten(len: nat): (r: nat)
    ensures r <= LINE_BUFFER && (len < LINE_BUFFER ==> r == len)
    ensures len >= LINE_BUFFER ==> r == LINE_BUFFER
  {
    if len > LINE_BUFFER then LINE_BUFFER else len
  }

  /** The caret's column as the source computes it: the caret's distance
      from the start of its line, with no cap; it is the column CaretColumn
      gives when nothing caps it. */
  function CaretColumnAsWritten(caret: int, lineStart: int): (r: int)
    ensures lineStart <= caret ==> r >= 0 && CaretColumn(caret, lineStart, r) == r
  {
    caret - lineStart
  }

  /** On any line of 1024 characters or more the NUL is stored at index
      1024, one past the end of the 1024-character buffer. With the caret
      1024 or more characters into such a line, the column the source
      starts the word scan from and stores the caret's NUL at lies outside
      the buffer too, where the capped column stays inside. */
  lemma SelectTextOverrun(len: nat, caret: int, lineStart: int)
    requires len >= LINE_BUFFER && lineStart <= caret <= lineStart + len
    ensures LineNulIndexAsWritten(len) == LINE_BUFFER
    ensures CaretColumn(caret, lineStart, CappedLineLength(len)) < LINE_BUFFER
    ensures caret - lineStart >= LINE_BUFFER ==> CaretColumnAsWritten(caret, lineStart) >= LINE_BUFFER
  {
  }

  /** With the line capped at 1023 characters and the caret kept inside the
      copied part, every store into the buffer is inside it. */
  lemma SelectTextInBounds(len: nat, caret: int, lineStart: int)
    requires lineStart <= caret
    ensures var n := CappedLineLength(len);
            n < LINE_BUFFER && CaretColumn(caret, lineStart, n) < LINE_BUFFER
  {
  }

  /** The word scan on the line buffer: the first cut-off character at or
      behind the caret ends the word; the text before the caret, cut at the
      caret with a NUL and reversed in place, gives the start the same way.
      Returns the word's bounds as columns. */
  method ScanWord(buf: array<char>, n: nat, col: nat, ghost t: seq<char>) returns (start: nat, end: nat)
    requires col <= n < buf.Length && buf[..n] == t
    modifies buf
    ensures start == WordStart(t, col) && end == WordEnd(t, col)
  {
    assert buf[col..n] == t[col..];
    end := match FirstCut(buf[col..n])
      case None => n
      case Some(k) => col + k;
    buf[col] := NUL;
    assert buf[..col] == t[..col];
    ReverseInPlace(buf, col);
    start := match FirstCut(buf[..col])
      case None => 0
      case Some(k) => col - k;
  }

  /** SelectText: with no output 0; with a selection its length, unchanged;
      otherwise the word around the caret in its line (of which at most
      1023 characters are looked at) is selected and its length returned,
      or nothing when it is empty. */
  method SelectText(textLength: nat, selStart: int, selEnd: int, lineStart: int, line: seq<char>)
    returns (selLength: int, selection: Option<(int, int)>)
    requires NUL !in line
    requires selStart == selEnd ==> lineStart <= selStart
    ensures textLength == 0 ==> selLength == 0 && selection == None
    ensures textLength > 0 && selStart != selEnd ==> selLength == selEnd - selStart && selection == None
    ensures textLength > 0 && selStart == selEnd ==>
              var t := line[..CappedLineLength(|line|)];
              var col := CaretColumn(selStart, lineStart, |t|);
              var s, e := lineStart + WordStart(t, col), lineStart + WordEnd(t, col);
              if t == [] then selLength == 0 && selection == None
              else selLength == e - s && selection == (if s == e then None else Some((s, e)))
  {
    if textLength == 0 {
      return 0, None;
    }
    selLength := selEnd - selStart;
    if selLength != 0 {
      return selLength, None;
    }
    selLength, selection := SelectWord(selStart, lineStart, line);
  }

  /** The line copied into a fresh LINE_BUFFER-character buffer and
      terminated with NUL right behind it. */
  method LoadLine(t: seq<char>) returns (buf: array<char>)
    requires |t| < LINE_BUFFER
    ensures fresh(buf) && buf.Length == LINE_BUFFER
    ensures buf[..|t|] == t && buf[|t|] == NUL
  {
    buf := new char[LINE_BUFFER](_ => NUL);
    CopyInto(buf, 0, t);
    buf[|t|] := NUL;
    assert buf[..|t|] == t;
  }

  /** The selection of the word at the caret, from a copy of at most 1023
      characters of its line in a 1024-character buffer. */
  method SelectWord(caret: int, lineStart: int, line: seq<char>) returns (selLength: int, selection: Option<(int, int)>)
    requires NUL !in line && lineStart <= caret
    ensures var t := line[..CappedLineLength(|line|)];
            var col := CaretColumn(caret, lineStart, |t|);
            var s, e := lineStart + WordStart(t, col), lineStart + WordEnd(t, col);
            if t == [] then selLength == 0 && selection == None
            else selLength == e - s && selection == (if s == e then None else Some((s, e)))
  {
    var n := CappedLineLength(|line|);
    var t := line[..n];
    var buf := LoadLine(t);
    if n == 0 {
      return 0, None;
    }
    var col := CaretColumn(caret, lineStart, n);
    var s, e := ScanWord(buf, n, col, t);
    selLength := e - s;
    selection := if selLength != 0 then Some((lineStart + s, lineStart + e)) else None;
  }
}
