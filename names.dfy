/** Pure helpers of the upload pipeline: the video-type filter, Node's
    `path.extname`, and the stored-name builder of the disk storage, with
    a parser that recovers the name's parts. */
module Names {

  datatype Option<T> = None | Some(value: T)

  // ---------------------------------------------------------------------
  // File filter
  // ---------------------------------------------------------------------

  const VideoPrefix: string := "video/"
  const OnlyVideosMessage: string := "Only video files are allowed!"

  /** `s` begins with `prefix`, compared character by character, as
      `String.prototype.startsWith` does. */
  predicate StartsWith(s: string, prefix: string)
  {
    prefix == [] || (s != [] && s[0] == prefix[0] && StartsWith(s[1..], prefix[1..]))
  }

  lemma {:induction false} StartsWithIsPrefix(s: string, prefix: string)
    ensures StartsWith(s, prefix) <==> |prefix| <= |s| && s[..|prefix|] == prefix
  {
    if prefix != [] && s != [] {
      StartsWithIsPrefix(s[1..], prefix[1..]);
      if |prefix| <= |s| {
        assert s[..|prefix|] == [s[0]] + s[1..][..|prefix| - 1];
        assert prefix == [prefix[0]] + prefix[1..];
      }
    }
  }

  /** The multer file filter: the callback gets `true` exactly for a
      mimetype that starts with "video/", and an error otherwise. */
  datatype Verdict = Accept | Reject(message: string)

  function FileFilter(mimetype: string): (v: Verdict)
    ensures v.Accept? <==> |mimetype| >= 6 && mimetype[..6] == "video/"
    ensures v.Reject? ==> v == Reject("Only video files are allowed!")
  {
    StartsWithIsPrefix(mimetype, VideoPrefix);
    if StartsWith(mimetype, VideoPrefix) then Accept else Reject(OnlyVideosMessage)
  }

  // ---------------------------------------------------------------------
  // path.extname (POSIX flavour)
  // ---------------------------------------------------------------------

  /** `e` is a (possibly empty) tail of `s`. */
  predicate IsSuffix(e: string, s: string)
  {
    |e| <= |s| && s[|s| - |e|..] == e
  }

  /** `p` without its trailing '/' separators. */
  function TrimTrailingSlashes(p: string): (t: string)
    ensures |t| <= |p| && t == p[..|t|]
    ensures t == [] || t[|t| - 1] != '/'
    ensures forall i :: |t| <= i < |p| ==> p[i] == '/'
  {
    if p != [] && p[|p| - 1] == '/' then TrimTrailingSlashes(p[..|p| - 1]) else p
  }

  /** Index just after the last '/' of `s`, or 0 when there is none. */
  function SegmentStart(s: string): (k: nat)
    ensures k <= |s|
    ensures forall i :: k <= i < |s| ==> s[i] != '/'
    ensures k > 0 ==> s[k - 1] == '/'
  {
    if s == [] then 0
    else if s[|s| - 1] == '/' then |s|
    else SegmentStart(s[..|s| - 1])
  }

  /** The final path segment, trailing separators ignored. */
  function LastSegment(p: string): (seg: string)
    ensures '/' !in seg
    ensures IsSuffix(seg, TrimTrailingSlashes(p))
  {
    var t := TrimTrailingSlashes(p);
    t[SegmentStart(t)..]
  }

  /** Position of the last '.' of `s`. */
  function LastDot(s: string): (d: Option<nat>)
    ensures d.None? <==> '.' !in s
    ensures d.Some? ==> d.value < |s| && s[d.value] == '.' && '.' !in s[d.value + 1..]
  {
    if s == [] then None
    else if s[|s| - 1] == '.' then Some(|s| - 1)
    else
      var d := LastDot(s[..|s| - 1]);
      assert d.Some? ==> s[d.value + 1..] == s[..|s| - 1][d.value + 1..] + [s[|s| - 1]];
      d
  }

  /** Node's `path.extname`: trailing separators are skipped, then the
      extension is taken from the final segment (see `SegmentExt`). */
  function ExtName(p: string): string
  {
    if p != [] && p[|p| - 1] == '/' then ExtName(p[..|p| - 1])
    else SegmentExt(p[SegmentStart(p)..])
  }

  /** The extension of one path segment: the text from its last '.' to its
      end; empty when it has no dot, when its only dot is its first
      character, or when the segment is "..". */
  function SegmentExt(seg: string): string
  {
    match LastDot(seg)
    case None => ""
    case Some(d) => if d == 0 || seg == ".." then "" else seg[d..]
  }

  /** `ExtName` is the extension of the final segment. */
  lemma {:induction false} ExtNameOfLastSegment(p: string)
    ensures ExtName(p) == SegmentExt(LastSegment(p))
  {
    if p != [] && p[|p| - 1] == '/' {
      assert TrimTrailingSlashes(p) == TrimTrailingSlashes(p[..|p| - 1]);
      ExtNameOfLastSegment(p[..|p| - 1]);
    }
  }

  /** An extension is empty or a dot followed by dot-free text, and it is
      the tail of the final segment. */
  lemma ExtNameShape(p: string)
    ensures var e := ExtName(p);
      && (e == [] || (e[0] == '.' && '.' !in e[1..]))
      && '/' !in e
      && IsSuffix(e, LastSegment(p))
  {
    ExtNameOfLastSegment(p);
    SegmentExtShape(LastSegment(p));
  }

  lemma SegmentExtShape(seg: string)
    requires '/' !in seg
    ensures var e := SegmentExt(seg);
      && (e == [] || (e[0] == '.' && '.' !in e[1..]))
      && '/' !in e
      && IsSuffix(e, seg)
  {
    match LastDot(seg)
    case None =>
    case Some(d) =>
      if d != 0 && seg != ".." {
        var e := seg[d..];
        assert e[1..] == seg[d + 1..];
        assert forall c :: c in e ==> c in seg;
      }
  }

  lemma {:induction false} ExtNameWithoutDot(p: string)
    requires '.' !in p
    ensures ExtName(p) == ""
  {
    if p != [] && p[|p| - 1] == '/' {
      assert forall c :: c in p[..|p| - 1] ==> c in p;
      ExtNameWithoutDot(p[..|p| - 1]);
    } else {
      var seg := p[SegmentStart(p)..];
      assert forall c :: c in seg ==> c in p;
      assert LastDot(seg).None?;
    }
  }

  /** A name whose last segment is `stem + "." + ext` (`stem` not empty,
      `ext` free of dots) has extension "." + ext, case kept as written;
      the one exception is the segment "..". */
  lemma ExtNameOfFileName(dir: string, stem: string, ext: string)
    requires stem != [] && '/' !in stem && '/' !in ext && '.' !in ext
    requires stem + "." + ext != ".."
    requires dir == [] || dir[|dir| - 1] == '/'
    ensures ExtName(dir + stem + "." + ext) == "." + ext
  {
    var p, seg := dir + stem + "." + ext, stem + "." + ext;
    assert p == dir + seg;
    LastSegmentOf(dir, seg);
    assert LastSegment(p) == seg;
    LastDotBeforeTail(stem, ext);
    assert LastDot(LastSegment(p)) == Some(|stem|);
    ExtNameAt(p, |stem|);
    DropStem(stem, ext);
  }

  lemma DropStem(stem: string, ext: string)
    ensures (stem + "." + ext)[|stem|..] == "." + ext
  {
    var seg := stem + "." + ext;
    assert forall i :: 0 <= i <= |ext| ==> seg[|stem| + i] == ("." + ext)[i];
  }

  /** A segment whose only dot is its leading one (".bashrc") has no
      extension. */
  lemma ExtNameOfDotFile(dir: string, rest: string)
    requires '/' !in rest && '.' !in rest
    requires dir == [] || dir[|dir| - 1] == '/'
    ensures ExtName(dir + "." + rest) == ""
  {
    var p, seg := dir + "." + rest, "." + rest;
    assert p == dir + seg;
    LastSegmentOf(dir, seg);
    LastDotBeforeTail([], rest);
    assert [] + "." + rest == seg;
    ExtNameAt(p, 0);
  }

  /** ExtName once the last dot of the last segment is known. */
  lemma ExtNameAt(p: string, d: nat)
    requires LastDot(LastSegment(p)) == Some(d)
    ensures ExtName(p) == if d == 0 || LastSegment(p) == ".." then "" else LastSegment(p)[d..]
  {
    ExtNameOfLastSegment(p);
  }

  lemma LastSegmentOf(dir: string, seg: string)
    requires seg != [] && '/' !in seg
    requires dir == [] || dir[|dir| - 1] == '/'
    ensures LastSegment(dir + seg) == seg
  {
    var p := dir + seg;
    assert p[|p| - 1] == seg[|seg| - 1];
    assert TrimTrailingSlashes(p) == p;
    SegmentStartAfter(dir, seg);
    assert p[|dir|..] == seg;
  }

  lemma {:induction false} SegmentStartAfter(dir: string, seg: string)
    requires '/' !in seg
    requires dir == [] || dir[|dir| - 1] == '/'
    ensures SegmentStart(dir + seg) == |dir|
  {
    if seg == [] {
      assert dir + seg == dir;
    } else {
      var s := dir + seg;
      assert s[..|s| - 1] == dir + seg[..|seg| - 1];
      SegmentStartAfter(dir, seg[..|seg| - 1]);
    }
  }

  lemma {:induction false} LastDotBeforeTail(stem: string, ext: string)
    requires '.' !in ext
    ensures LastDot(stem + "." + ext) == Some(|stem|)
  {
    if ext != [] {
      var s := stem + "." + ext;
      assert s[..|s| - 1] == stem + "." + ext[..|ext| - 1];
      LastDotBeforeTail(stem, ext[..|ext| - 1]);
    }
  }

  // ---------------------------------------------------------------------
  // Decimal rendering of a number (JavaScript's Number-to-string for the
  // non-negative integers involved here)
  // ---------------------------------------------------------------------

  predicate IsDigit(c: char)
  {
    '0' <= c <= '9'
  }

  predicate AllDigits(s: string)
  {
    forall i :: 0 <= i < |s| ==> IsDigit(s[i])
  }

  function DigitChar(n: nat): (c: char)
    requires n < 10
    ensures IsDigit(c) && c as int - '0' as int == n
  {
    ('0' as int + n) as char
  }

  function Decimal(n: nat): (s: string)
    ensures s != [] && AllDigits(s)
  {
    if n < 10 then [DigitChar(n)] else Decimal(n / 10) + [DigitChar(n % 10)]
  }

  /** The number a string of decimal digits denotes. */
  function DigitsValue(s: string): nat
    requires AllDigits(s)
  {
    if s == [] then 0 else DigitsValue(s[..|s| - 1]) * 10 + (s[|s| - 1] as int - '0' as int)
  }

  lemma {:induction false} DecimalRoundTrip(n: nat)
    ensures DigitsValue(Decimal(n)) == n
  {
    if n >= 10 {
      var s := Decimal(n);
      assert s[..|s| - 1] == Decimal(n / 10);
      DecimalRoundTrip(n / 10);
    }
  }

  /** Length of the longest all-digit prefix of `s`. */
  function DigitRun(s: string): (k: nat)
    ensures k <= |s| && AllDigits(s[..k])
    ensures k < |s| ==> !IsDigit(s[k])
  {
    if s != [] && IsDigit(s[0]) then
      var k := 1 + DigitRun(s[1..]);
      assert s[..k] == [s[0]] + s[1..][..k - 1];
      k
    else 0
  }

  lemma DigitRunOf(d: string, rest: string)
    requires AllDigits(d)
    requires rest == [] || !IsDigit(rest[0])
    ensures DigitRun(d + rest) == |d|
  {
    var s := d + rest;
    assert s[..|d|] == d;
    assert |d| < |s| ==> s[|d|] == rest[0];
  }

  // ---------------------------------------------------------------------
  // Stored file names
  // ---------------------------------------------------------------------

  const StoredPrefix: string := "video-"

  /** A name of an entry directly inside the uploads directory, of the
      shape the disk storage gives its files. */
  predicate IsUploadName(name: string)
  {
    '/' !in name && |name| > |StoredPrefix| && name[..|StoredPrefix|] == StoredPrefix
  }

  /** The name the disk storage gives an upload:
      "video-" + timestamp + "-" + random + extname(originalName). */
  function StoredName(timestamp: nat, random: nat, originalName: string): (name: string)
    ensures IsUploadName(name)
    ensures IsSuffix(ExtName(originalName), name)
  {
    var ts, rnd, ext := Decimal(timestamp), Decimal(random), ExtName(originalName);
    ExtNameShape(originalName);
    NoSlashInDigits(ts);
    NoSlashInDigits(rnd);
    LaidOutName(ts, rnd, ext);
    StoredPrefix + ts + "-" + rnd + ext
  }

  lemma LaidOutName(ts: string, rnd: string, ext: string)
    requires '/' !in ts && '/' !in rnd && '/' !in ext
    ensures IsUploadName(StoredPrefix + ts + "-" + rnd + ext)
    ensures IsSuffix(ext, StoredPrefix + ts + "-" + rnd + ext)
  {
    var name := StoredPrefix + ts + "-" + rnd + ext;
    assert name == StoredPrefix + (ts + "-" + rnd + ext);
    assert name[..|StoredPrefix|] == StoredPrefix;
    assert name[|name| - |ext|..] == ext;
  }

  lemma NoSlashInDigits(s: string)
    requires AllDigits(s)
    ensures '/' !in s
  {
  }

  datatype StoredParts = StoredParts(timestamp: nat, random: nat, ext: string)

  /** A leading run of digits read as a number, with the text after it. */
  function ParseNumber(s: string): Option<(nat, string)>
  {
    var k := DigitRun(s);
    if k == 0 then None else Some((DigitsValue(s[..k]), s[k..]))
  }

  /** Reads a stored name back into its timestamp, random number and
      extension; `None` for a name the storage cannot have produced. */
  function ParseStoredName(name: string): Option<StoredParts>
  {
    if |name| < |StoredPrefix| || name[..|StoredPrefix|] != StoredPrefix then None
    else ParseStamps(name[|StoredPrefix|..])
  }

  /** Reads "<timestamp>-<random><ext>". */
  function ParseStamps(s: string): Option<StoredParts>
  {
    match ParseNumber(s)
    case None => None
    case Some((timestamp, rest)) =>
      if rest == [] || rest[0] != '-' then None
      else
        match ParseNumber(rest[1..])
        case None => None
        case Some((random, ext)) => Some(StoredParts(timestamp, random, ext))
  }

  lemma ParseNumberOf(d: string, rest: string)
    requires d != [] && AllDigits(d)
    requires rest == [] || !IsDigit(rest[0])
    ensures ParseNumber(d + rest) == Some((DigitsValue(d), rest))
  {
    DigitRunOf(d, rest);
    assert (d + rest)[..|d|] == d;
    assert (d + rest)[|d|..] == rest;
  }

  lemma StoredNameRoundTrip(timestamp: nat, random: nat, originalName: string)
    ensures ParseStoredName(StoredName(timestamp, random, originalName))
         == Some(StoredParts(timestamp, random, ExtName(originalName)))
  {
    var ts, rnd, ext := Decimal(timestamp), Decimal(random), ExtName(originalName);
    ExtNameShape(originalName);
    assert StoredName(timestamp, random, originalName) == StoredPrefix + ts + "-" + rnd + ext;
    ParseLaidOutName(ts, rnd, ext);
    DecimalRoundTrip(timestamp);
    DecimalRoundTrip(random);
  }

  lemma ParseLaidOutName(ts: string, rnd: string, ext: string)
    requires ts != [] && AllDigits(ts) && rnd != [] && AllDigits(rnd)
    requires ext == [] || !IsDigit(ext[0])
    ensures ParseStoredName(StoredPrefix + ts + "-" + rnd + ext)
         == Some(StoredParts(DigitsValue(ts), DigitsValue(rnd), ext))
  {
    var stamps := ts + ("-" + (rnd + ext));
    assert StoredPrefix + ts + "-" + rnd + ext == StoredPrefix + stamps;
    ParsePrefixed(stamps);
    ParseStampsOf(ts, rnd, ext);
  }

  lemma ParsePrefixed(stamps: string)
    ensures ParseStoredName(StoredPrefix + stamps) == ParseStamps(stamps)
  {
    var name := StoredPrefix + stamps;
    assert name[..|StoredPrefix|] == StoredPrefix;
    assert name[|StoredPrefix|..] == stamps;
  }

  lemma ParseStampsOf(ts: string, rnd: string, ext: string)
    requires ts != [] && AllDigits(ts) && rnd != [] && AllDigits(rnd)
    requires ext == [] || !IsDigit(ext[0])
    ensures ParseStamps(ts + ("-" + (rnd + ext)))
         == Some(StoredParts(DigitsValue(ts), DigitsValue(rnd), ext))
  {
    var rest := "-" + (rnd + ext);
    ParseNumberOf(ts, rest);
    assert rest[1..] == rnd + ext;
    ParseNumberOf(rnd, ext);
  }

  /** Two stored names coincide exactly when their timestamps, random
      numbers and extensions do: the original name contributes nothing but
      its extension. */
  lemma StoredNameInjective(t1: nat, r1: nat, o1: string, t2: nat, r2: nat, o2: string)
    ensures StoredName(t1, r1, o1) == StoredName(t2, r2, o2)
        <==> t1 == t2 && r1 == r2 && ExtName(o1) == ExtName(o2)
  {
    StoredNameRoundTrip(t1, r1, o1);
    StoredNameRoundTrip(t2, r2, o2);
  }
}
