// The string helpers of Misc.cpp: appending a flag name to a
// "|"-separated list in a fixed buffer, replacing every occurrence of a
// pattern in a freshly allocated string, and fitting a path into a buffer.
// Characters are `char`; a C string lives in an array of characters and
// ends at its first NUL.

module MiscText {
  import opened Bytes
  import opened IccProfile

  const NUL: char := '\0'

  /** The string a character buffer holds: everything before its first NUL. */
  function Text(a: seq<char>): seq<char>
  {
    CString(a, NUL)
  }

  /** Positions 0..n-1 of a hold a string of length n, ended by a NUL at n. */
  predicate Holds(a: seq<char>, n: nat)
  {
    n < |a| && a[n] == NUL && NUL !in a[..n]
  }

  /** A buffer holding n characters holds its first n characters as text. */
  lemma HeldText(a: seq<char>, n: nat)
    requires Holds(a, n)
    ensures Text(a) == a[..n]
  {
    assert a == a[..n] + [NUL] + a[n + 1..];
    CStringOfTerminated(a[..n], NUL, a[n + 1..]);
  }

  /** `_tcslen` over a buffer that holds a NUL. */
  method StrLen(a: array<char>) returns (n: nat)
    requires NUL in a[..]
    ensures Holds(a[..], n) && Text(a[..]) == a[..n]
  {
    n := 0;
    while a[n] != NUL
      invariant n < a.Length && NUL !in a[..n] && NUL in a[n..]
      decreases a.Length - n
    {
      assert a[n..] == [a[n]] + a[n + 1..];
      n := n + 1;
    }
    HeldText(a[..], n);
  }

  /** `_tcsncpy` / `_tcscpy` into a buffer: src copied to positions at..,
      every other position kept. */
  method CopyInto(a: array<char>, at: nat, src: seq<char>)
    requires at + |src| <= a.Length
    modifies a
    ensures a[..at + |src|] == old(a[..at]) + src
    ensures at + |src| == a.Length ==> a[..] == old(a[..at]) + src
  {
    for k := 0 to |src|
      invariant a[..at + k] == old(a[..at]) + src[..k]
    {
      a[at + k] := src[k];
      assert src[..k + 1] == src[..k] + [src[k]];
    }
  }

  // AppendFlagName

  function Min(a: nat, b: nat): nat
  {
    if a < b then a else b
  }

  /** `_tcsncat`: at most count characters of src appended to dst. */
  function NCat(dst: seq<char>, src: seq<char>, count: nat): (r: seq<char>)
    ensures |r| == |dst| + Min(|src|, count) && r[..|dst|] == dst
  {
    dst + src[..Min(|src|, count)]
  }

  /** The untruncated list: the name alone, or behind the text and a "|". */
  function Joined(s: seq<char>, name: seq<char>): seq<char>
  {
    if s == [] then name else s + "|" + name
  }

  /** The text that appending name leaves in a buffer of cap characters
      holding s: the list with a "|" and the name, cut to cap - 1
      characters, so that it starts with s, is a prefix of the untruncated
      list, and is all of it when that fits. */
  function Appended(s: seq<char>, name: seq<char>, cap: nat): (r: seq<char>)
    requires |s| < cap
    ensures |s| <= |r| < cap && r[..|s|] == s
    ensures |r| <= |Joined(s, name)| && r == Joined(s, name)[..|r|]
    ensures |Joined(s, name)| < cap ==> r == Joined(s, name)
  {
    var t := if s == [] then s else NCat(s, "|", cap - |s| - 1);
    NCat(t, name, cap - |t| - 1)
  }

  /** `_tcsncat` into a buffer holding n characters: at most count
      characters of src are written behind them, then a NUL. */
  method NCatInto(a: array<char>, n: nat, src: seq<char>, count: nat) returns (m: nat)
    requires Holds(a[..], n) && n + count < a.Length && NUL !in src
    modifies a
    ensures Holds(a[..], m) && a[..m] == NCat(old(a[..n]), src, count)
  {
    var part := src[..Min(|src|, count)] + [NUL];
    ghost var before := a[..n];
    CopyInto(a, n, part);
    m := n + Min(|src|, count);
    assert a[..m + 1] == before + part;
    assert a[..m] == (a[..m + 1])[..m];
    assert a[m] == (a[..m + 1])[m];
  }

  /** AppendFlagName: no buffer, no name or no room gives null and leaves the
      buffer alone; otherwise a "|" when the buffer already holds text, then
      the name, each cut to what the buffer still has room for. */
  method AppendFlagName(buf: array?<char>, name: Option<seq<char>>) returns (ok: bool)
    requires buf != null && buf.Length > 0 ==> NUL in buf[..]
    requires name.Some? ==> NUL !in name.value
    modifies buf
    ensures ok <==> buf != null && name.Some? && buf.Length > 0
    ensures !ok && buf != null ==> buf[..] == old(buf[..])
    ensures ok ==> NUL in buf[..] && Text(buf[..]) == Appended(old(Text(buf[..])), name.value, buf.Length)
  {
    if buf == null || name.None? || buf.Length == 0 {
      return false;
    }
    var n := StrLen(buf);
    ghost var s := buf[..n];
    var t := n;
    if buf[0] != NUL {
      t := NCatInto(buf, n, "|", buf.Length - n - 1);
    }
    assert buf[..t] == if s == [] then s else NCat(s, "|", buf.Length - |s| - 1);
    var m := NCatInto(buf, t, name.value, buf.Length - t - 1);
    HeldText(buf[..], m);
    assert buf[m] == NUL;
    return true;
  }

  /** The text left by appending the names one after the other. */
  function AppendAll(s: seq<char>, names: seq<seq<char>>, cap: nat): (r: seq<char>)
    requires |s| < cap
    ensures |r| < cap
    decreases |names|
  {
    if names == [] then s else AppendAll(Appended(s, names[0], cap), names[1..], cap)
  }

  /** The names separated by "|". */
  function Join(names: seq<seq<char>>): seq<char>
  {
    if names == [] then []
    else if |names| == 1 then names[0]
    else names[0] + "|" + Join(names[1..])
  }

  lemma BarAssoc(a: seq<char>, b: seq<char>, c: seq<char>)
    ensures a + "|" + b + "|" + c == a + "|" + (b + "|" + c)
  {
  }

  /** Behind non-empty text, the names are each appended with a "|". */
  lemma {:induction false} AppendAllBehind(s: seq<char>, names: seq<seq<char>>, cap: nat)
    requires 0 < |s| && names != [] && |s| + 1 + |Join(names)| < cap
    ensures AppendAll(s, names, cap) == s + "|" + Join(names)
    decreases |names|
  {
    var s' := s + "|" + names[0];
    if |names| == 1 {
      assert Appended(s, names[0], cap) == s';
      assert AppendAll(s', names[1..], cap) == s';
    } else {
      var rest := Join(names[1..]);
      assert Join(names) == names[0] + "|" + rest;
      assert Appended(s, names[0], cap) == s' by {
        assert |Joined(s, names[0])| < cap;
      }
      AppendAllBehind(s', names[1..], cap);
      BarAssoc(s, names[0], rest);
    }
  }

  /** Appending non-empty names to an empty buffer builds their "|"-joined
      list whenever it fits, as the flag and attribute lists are built. */
  lemma AppendAllJoins(names: seq<seq<char>>, cap: nat)
    requires |Join(names)| < cap
    requires forall i | 0 <= i < |names| :: names[i] != []
    ensures AppendAll([], names, cap) == Join(names)
  {
    if names != [] {
      var s := names[0];
      if |names| == 1 {
        assert Appended([], names[0], cap) == s;
        assert AppendAll(s, names[1..], cap) == s;
      } else {
        assert |Join(names)| == |names[0]| + 1 + |Join(names[1..])|;
        assert Appended([], names[0], cap) == s;
        AppendAllBehind(s, names[1..], cap);
      }
    }
  }

  /** A "|"-joined list is at most one separator per name longer than its
      names. */
  lemma {:induction false} JoinLength(names: seq<seq<char>>, m: nat)
    requires forall i | 0 <= i < |names| :: |names[i]| <= m
    ensures |Join(names)| <= |names| * (m + 1)
  {
    if |names| > 1 {
      JoinLength(names[1..], m);
      assert |Join(names)| == |names[0]| + 1 + |Join(names[1..])|;
      MulSucc(|names| - 1, m + 1);
    }
  }

  /** The profile flags line lists the names of FlagNames, separated by
      "|": the 1024-character buffer always has room for all of them. */
  lemma FlagListJoined(v: u32)
    ensures AppendAll([], FlagNames(v), OUTPUT_LEN) == Join(FlagNames(v))
  {
    var names := FlagNames(v);
    FlagNamesListed(v);
    assert forall i | 0 <= i < |names| :: 0 < |names[i]| <= 16;
    JoinLength(names, 16);
    MulLe(|names|, 5, 17);
    AppendAllJoins(names, OUTPUT_LEN);
  }

  /** Every attribute name is a non-empty word of at most 18 characters. */
  lemma AttributeNamesShort(v: nat)
    requires v < TWO64
    ensures forall i | 0 <= i < |AttributeNames(v)| :: 0 < |AttributeNames(v)[i]| <= 18
  {
  }

  /** The same for the device attributes line. */
  lemma AttributeListJoined(v: nat)
    requires v < TWO64
    ensures AppendAll([], AttributeNames(v), OUTPUT_LEN) == Join(AttributeNames(v))
  {
    var names := AttributeNames(v);
    AttributeNamesListed(v);
    AttributeNamesShort(v);
    JoinLength(names, 18);
    assert |names| * 19 <= 171;
    assert |Join(names)| < OUTPUT_LEN;
    assert forall i | 0 <= i < |names| :: names[i] != [];
    AppendAllJoins(names, OUTPUT_LEN);
  }

  // AllocReplaceString

  /** The pattern occurs at position i of s. */
  predicate MatchAt(s: seq<char>, pat: seq<char>, i: nat)
  {
    i + |pat| <= |s| && SameFrom(s, pat, i, 0)
  }

  /** Characters k.. of the pattern equal those of s from position i + k. */
  predicate SameFrom(s: seq<char>, pat: seq<char>, i: nat, k: nat)
    requires i + |pat| <= |s|
    decreases |pat| - k
  {
    k >= |pat| || (s[i + k] == pat[k] && SameFrom(s, pat, i, k + 1))
  }

  /** A match is the pattern standing in s. */
  lemma {:induction false} SameFromSlice(s: seq<char>, pat: seq<char>, i: nat, k: nat)
    requires i + |pat| <= |s| && k <= |pat|
    ensures SameFrom(s, pat, i, k) <==> s[i + k..i + |pat|] == pat[k..]
    decreases |pat| - k
  {
    if k < |pat| {
      SameFromSlice(s, pat, i, k + 1);
      assert s[i + k..i + |pat|] == [s[i + k]] + s[i + k + 1..i + |pat|];
      assert pat[k..] == [pat[k]] + pat[k + 1..];
    }
  }

  lemma MatchAtSlice(s: seq<char>, pat: seq<char>, i: nat)
    ensures MatchAt(s, pat, i) <==> i + |pat| <= |s| && s[i..i + |pat|] == pat
  {
    if i + |pat| <= |s| {
      SameFromSlice(s, pat, i, 0);
    }
  }

  /** `_tcsstr` from position from: the first occurrence of pat there or later. */
  function Find(s: seq<char>, pat: seq<char>, from: nat): (r: Option<nat>)
    requires from <= |s|
    ensures r.Some? ==> from <= r.value && MatchAt(s, pat, r.value)
    decreases |s| - from
  {
    if from + |pat| > |s| then None
    else if MatchAt(s, pat, from) then Some(from)
    else Find(s, pat, from + 1)
  }

  /** Find gives the first position at or after from where the pattern
      occurs, and nothing exactly when it occurs nowhere from there on. */
  lemma {:induction false} FindIsFirst(s: seq<char>, pat: seq<char>, from: nat)
    requires from <= |s|
    ensures Find(s, pat, from).Some? ==>
              var i := Find(s, pat, from).value;
              from <= i && MatchAt(s, pat, i) && forall j | from <= j < i :: !MatchAt(s, pat, j)
    ensures Find(s, pat, from).None? <==> forall j | from <= j <= |s| :: !MatchAt(s, pat, j)
    decreases |s| - from
  {
    if from + |pat| > |s| {
      assert forall j | from <= j <= |s| :: !MatchAt(s, pat, j);
    } else if !MatchAt(s, pat, from) {
      FindIsFirst(s, pat, from + 1);
      if Find(s, pat, from).Some? {
        assert MatchAt(s, pat, Find(s, pat, from).value);
      }
    }
  }

  /** The number of non-overlapping occurrences, found left to right from from. */
  function Count(s: seq<char>, pat: seq<char>, from: nat): (r: nat)
    requires |pat| > 0 && from <= |s|
    ensures r * |pat| <= |s| - from
    decreases |s| - from
  {
    match Find(s, pat, from)
    case None => 0
    case Some(i) =>
      MulSucc(Count(s, pat, i + |pat|), |pat|);
      1 + Count(s, pat, i + |pat|)
  }

  /** s from position from on, with each such occurrence replaced by rep. */
  function Replaced(s: seq<char>, pat: seq<char>, rep: seq<char>, from: nat): (r: seq<char>)
    requires |pat| > 0 && from <= |s|
    ensures |rep| == |pat| ==> |r| == |s| - from
    decreases |s| - from
  {
    match Find(s, pat, from)
    case None => s[from..]
    case Some(i) => s[from..i] + rep + Replaced(s, pat, rep, i + |pat|)
  }

  /** One found occurrence: the text up to it, the replacement, then the
      rest handled from behind it. */
  lemma ReplacedStep(s: seq<char>, pat: seq<char>, rep: seq<char>, from: nat)
    requires |pat| > 0 && from <= |s| && Find(s, pat, from).Some?
    ensures var i := Find(s, pat, from).value;
            Replaced(s, pat, rep, from) == s[from..i] + rep + Replaced(s, pat, rep, i + |pat|)
            && Count(s, pat, from) == 1 + Count(s, pat, i + |pat|)
  {
  }

  /** The output written so far and the rest still to be handled make up
      the whole result, before and after one occurrence is handled. */
  lemma ReplacedAdvance(s: seq<char>, pat: seq<char>, rep: seq<char>, from: nat, done: seq<char>, whole: seq<char>)
    requires |pat| > 0 && from <= |s| && Find(s, pat, from).Some?
    requires done + Replaced(s, pat, rep, from) == whole
    ensures var i := Find(s, pat, from).value;
            done + (s[from..i] + rep) + Replaced(s, pat, rep, i + |pat|) == whole
            && |Replaced(s, pat, rep, from)| == |s[from..i] + rep| + |Replaced(s, pat, rep, i + |pat|)|
  {
    var i := Find(s, pat, from).value;
    ConcatAssoc(done, s[from..i] + rep, Replaced(s, pat, rep, i + |pat|));
  }

  /** Each replacement changes the length by |rep| - |pat|. */
  lemma {:induction false} ReplacedLength(s: seq<char>, pat: seq<char>, rep: seq<char>, from: nat)
    requires |pat| > 0 && from <= |s|
    ensures |Replaced(s, pat, rep, from)| == |s| - from + Count(s, pat, from) * (|rep| - |pat|)
    decreases |s| - from
  {
    match Find(s, pat, from)
    case None =>
    case Some(i) =>
      ReplacedLength(s, pat, rep, i + |pat|);
      MulSucc(Count(s, pat, i + |pat|), |rep| - |pat|);
  }

  /** Replacing the pattern by itself gives the string back. */
  lemma {:induction false} ReplacedBySelf(s: seq<char>, pat: seq<char>, from: nat)
    requires |pat| > 0 && from <= |s|
    ensures Replaced(s, pat, pat, from) == s[from..]
    decreases |s| - from
  {
    match Find(s, pat, from)
    case None =>
    case Some(i) =>
      ReplacedBySelf(s, pat, i + |pat|);
      MatchAtSlice(s, pat, i);
      assert s[from..] == s[from..i] + s[i..i + |pat|] + s[i + |pat|..];
  }

  /** A string without the pattern is left as it is, and nothing is counted. */
  lemma ReplacedWithout(s: seq<char>, pat: seq<char>, rep: seq<char>)
    requires |pat| > 0 && forall j | 0 <= j <= |s| :: !MatchAt(s, pat, j)
    ensures Replaced(s, pat, rep, 0) == s && Count(s, pat, 0) == 0
  {
    FindIsFirst(s, pat, 0);
  }

  /** A string with the pattern changes when the replacement has another
      length: the length differs by |rep| - |pat| per occurrence. */
  lemma ReplacedWith(s: seq<char>, pat: seq<char>, rep: seq<char>, j: nat)
    requires |pat| > 0 && j <= |s| && MatchAt(s, pat, j) && |rep| != |pat|
    ensures Count(s, pat, 0) > 0 && Replaced(s, pat, rep, 0) != s
  {
    FindIsFirst(s, pat, 0);
    ReplacedLength(s, pat, rep, 0);
    MulNonZero(Count(s, pat, 0), |rep| - |pat|);
  }

  /** The first pass of AllocReplaceString: the occurrences of the pattern,
      counted left to right. */
  method CountPattern(s: seq<char>, pat: seq<char>) returns (count: nat)
    requires |pat| > 0
    ensures count == Count(s, pat, 0)
  {
    count := 0;
    var pos := 0;
    var loc := Find(s, pat, pos);
    while loc.Some?
      invariant pos <= |s| && loc == Find(s, pat, pos)
      invariant Count(s, pat, 0) == count + Count(s, pat, pos)
      decreases |s| - pos
    {
      ReplacedStep(s, pat, [], pos);
      count := count + 1;
      pos := loc.value + |pat|;
      loc := Find(s, pat, pos);
    }
  }

  /** The second pass: the text up to each occurrence and the replacement
      copied into r, then the rest of the string and its NUL. */
  method WriteReplaced(r: array<char>, s: seq<char>, pat: seq<char>, rep: seq<char>)
    requires |pat| > 0 && r.Length == |Replaced(s, pat, rep, 0)| + 1
    modifies r
    ensures r[..] == Replaced(s, pat, rep, 0) + [NUL]
  {
    var w: nat := 0;
    var pos := 0;
    var loc := Find(s, pat, pos);
    ghost var whole := Replaced(s, pat, rep, 0);
    ghost var out: seq<char> := [];
    while loc.Some?
      invariant pos <= |s| && loc == Find(s, pat, pos)
      invariant out + Replaced(s, pat, rep, pos) == whole
      invariant |whole| + 1 == r.Length && w == |out|
      invariant r[..w] == out
      decreases |s| - pos
    {
      var at := loc.value;
      var piece := s[pos..at] + rep;
      ReplacedAdvance(s, pat, rep, pos, out, whole);
      CopyInto(r, w, piece);
      out := out + piece;
      w := w + |piece|;
      pos := at + |pat|;
      loc := Find(s, pat, pos);
    }
    assert Replaced(s, pat, rep, pos) == s[pos..];
    CopyInto(r, w, s[pos..] + [NUL]);
    ConcatAssoc(out, s[pos..], [NUL]);
  }

  /** AllocReplaceString: null for a missing argument; otherwise a new
      NUL-terminated string of the counted length holding the original with
      every occurrence of the pattern, found left to right, replaced. The
      pattern must not be empty: the counting loop would never end. */
  method AllocReplaceString(original: Option<seq<char>>, pattern: Option<seq<char>>, replacement: Option<seq<char>>)
    returns (r: array?<char>)
    requires pattern.Some? ==> |pattern.value| > 0
    ensures r == null <==> original.None? || pattern.None? || replacement.None?
    ensures r != null ==> fresh(r) && r[..] == Replaced(original.value, pattern.value, replacement.value, 0) + [NUL]
  {
    if original.None? || pattern.None? || replacement.None? {
      return null;
    }
    var s, pat, rep := original.value, pattern.value, replacement.value;
    var count := CountPattern(s, pat);
    ReplacedLength(s, pat, rep, 0);
    var len := |s| + count * (|rep| - |pat|);
    r := new char[len + 1];
    WriteReplaced(r, s, pat, rep);
  }

  // ShortenPath

  /** `_tcsrchr`: the position of the last occurrence of c, if any. */
  function LastIndex(s: seq<char>, c: char): (r: Option<nat>)
    ensures r.Some? ==> r.value < |s| && s[r.value] == c && c !in s[r.value + 1..]
    ensures r.None? ==> c !in s
  {
    if s == [] then None
    else if s[|s| - 1] == c then Some(|s| - 1)
    else
      var r := LastIndex(s[..|s| - 1], c);
      assert s == s[..|s| - 1] + [s[|s| - 1]];
      r
  }

  /** The part of the path behind its last '\\' or, when it has none, its
      last '/'. */
  function FileName(path: seq<char>): (r: Option<seq<char>>)
  {
    match LastIndex(path, '\\')
    case Some(i) => Some(path[i + 1..])
    case None =>
      match LastIndex(path, '/')
      case Some(i) => Some(path[i + 1..])
      case None => None
  }

  /** The file name ends the path, behind a separator, and holds no '\\';
      it holds no '/' either unless the path has a '\\'. */
  lemma FileNameEnds(path: seq<char>)
    ensures FileName(path).Some? <==> '\\' in path || '/' in path
    ensures FileName(path).Some? ==>
              var f := FileName(path).value;
              |f| < |path| && path[|path| - |f|..] == f && path[|path| - |f| - 1] in "\\/"
              && '\\' !in f && ('\\' !in path ==> '/' !in f)
  {
  }

  /** The result of `GetShortPathName` for a buffer of cap characters: the
      length of the short form when it fits, the size it needs otherwise,
      and 0 when the path has none. */
  function ShortPathResult(short: Option<seq<char>>, cap: nat): nat
  {
    match short
    case None => 0
    case Some(t) => if |t| < cap then |t| else |t| + 1
  }

  /** ShortenPath's length and text for a buffer of cap characters: the
      path when it fits; else its short form when it fits; else its file
      name when that is not empty and fits; else nothing. */
  function Shortened(path: seq<char>, cap: nat, short: Option<seq<char>>): (r: (seq<char>, nat))
    ensures r.1 == |r.0| && (cap > 0 ==> r.1 < cap)
    ensures |path| < cap ==> r == (path, |path|)
  {
    if |path| < cap then (path, |path|)
    else if 0 < ShortPathResult(short, cap) < cap then (short.value, |short.value|)
    else match FileName(path)
      case Some(f) => if 0 < |f| < cap then (f, |f|) else ([], 0)
      case None => ([], 0)
  }

  /** What ShortenPath returns is the length of what it leaves in the
      buffer, and less than the buffer's size; that text is the path, its
      short form, or the end of the path behind a separator, and the
      result is 0 only for an empty text. */
  lemma ShortenedFits(path: seq<char>, cap: nat, short: Option<seq<char>>)
    requires cap > 0
    ensures var (t, n) := Shortened(path, cap, short);
            n == |t| < cap
            && (t == [] || t == path || Some(t) == short
                || exists i | 0 <= i < |path| :: path[i] in "\\/" && t == path[i + 1..])
            && (|path| < cap ==> t == path)
  {
    FileNameEnds(path);
    var (t, n) := Shortened(path, cap, short);
    if t != path && Some(t) != short && t != [] {
      var i := |path| - |t| - 1;
      assert path[i] in "\\/" && t == path[i + 1..];
    }
  }

  /** `GetShortPathName`, whose answer the file system gives: the short
      form and its NUL go into the buffer when they fit. */
  method GetShortPathName(buf: array<char>, short: Option<seq<char>>) returns (n: nat)
    requires short.Some? ==> NUL !in short.value
    modifies buf
    ensures n == ShortPathResult(short, buf.Length)
    ensures 0 < n < buf.Length ==> Holds(buf[..], n) && buf[..n] == short.value
    ensures !(0 < n < buf.Length) ==> buf[..] == old(buf[..])
  {
    n := ShortPathResult(short, buf.Length);
    if 0 < n < buf.Length {
      CopyInto(buf, 0, short.value + [NUL]);
      assert buf[..n + 1] == short.value + [NUL];
      assert buf[..n] == buf[..n + 1][..n];
    }
  }

  /** `lstrcpyn` of a string that fits into the buffer. */
  method PutText(buf: array<char>, t: seq<char>)
    requires |t| < buf.Length && NUL !in t
    modifies buf
    ensures Holds(buf[..], |t|) && buf[..|t|] == t
  {
    CopyInto(buf, 0, t + [NUL]);
    assert buf[..|t| + 1] == t + [NUL];
    assert buf[..|t|] == buf[..|t| + 1][..|t|];
  }

  /** ShortenPath: 0 for a missing path or buffer or a buffer of no size,
      leaving the buffer alone; otherwise the buffer holds what Shortened
      gives and its length is returned. */
  method ShortenPath(path: Option<seq<char>>, buf: array?<char>, short: Option<seq<char>>) returns (n: nat)
    requires path.Some? ==> NUL !in path.value
    requires short.Some? ==> NUL !in short.value
    modifies buf
    ensures buf == null || path.None? || buf.Length == 0 ==> n == 0 && (buf != null ==> buf[..] == old(buf[..]))
    ensures buf != null && path.Some? && buf.Length > 0 ==>
              NUL in buf[..] && (Text(buf[..]), n) == Shortened(path.value, buf.Length, short)
  {
    if buf == null || path.None? || buf.Length == 0 {
      return 0;
    }
    var p := path.value;
    FileNameEnds(p);
    if |p| < buf.Length {
      PutText(buf, p);
      HeldText(buf[..], |p|);
      return |p|;
    }
    n := GetShortPathName(buf, short);
    if 0 < n < buf.Length {
      HeldText(buf[..], n);
      return n;
    }
    var file := FileName(p);
    if file.Some? {
      var f := file.value;
      if 0 < |f| < buf.Length {
        PutText(buf, f);
        HeldText(buf[..], |f|);
        return |f|;
      }
    }
    buf[0] := NUL;
    assert Holds(buf[..], 0);
    HeldText(buf[..], 0);
    return 0;
  }
}
